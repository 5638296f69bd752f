# Mosys: a verified model

Mosys is a tool that reads and writes firmware and hardware information. This project models the parts
of it that have to be right for reasons that cannot be read off one function, and proves what they promise:

- **Locks between processes.** Both backends of `include/mosys/ipc_lock.h` are step systems: any number of
  processes, any interleaving, death at every program point. The semaphore backend (`SemLock*`) follows every
  system call of `core/csem.c` and `core/ipc_lock.c`: the probe of the platform, the creation in several calls,
  the wait for `sem_otime`, `SEM_UNDO`. The file backend (`FileLock*`) follows `core/file_lock.c`. Both refine
  one abstract mutex (`AbstractMutex`). The classes in `SemLockCode` and `FileLockCode` are the C functions
  statement by statement, every system call being a step of the step system while the other processes do as
  they like in between.
- **Walks.** `ScanTree` is `scanft` over a directory graph with cyclic links, compared with a set of paths
  that is defined without recursion over the graph. `Cbfs` walks an archive, `CbfsImage` builds whole ROM images to find files in.
- **Parsers and framing.** `EventLog` and `EventLogList` (the iterator and the command whose callback ends it),
  `CrosEcLpc` and `CrosEcI2c` (packets with checksums against a modelled EC), `Smbus` (register access).
- **Heap and output.** `LinkedList`, `Callbacks`, `HexDump`, `KvPair`.

`Basics`, `Runs`, `Words`, `Checksums` and `TimeSpecs` hold shared vocabulary.

## What the proofs say about the code

Where the code does not do what its documentation or a reader expects, the model keeps the code and a lemma
says exactly when it does.

- **Half created semaphore.** If a creator dies between `semget` and the call that makes `sem_otime` non-zero
  (or cannot remove a semaphore it could not set), nobody ever gets the lock again: `csem_get` waits in vain and
  nobody removes the semaphore. From any reachable state there is a run without any death on which some call of
  `mosys_lock` returns 0 if and only if that has not happened (`SemLockOrphan.UsableIffNotOrphaned`); and it can
  happen on every platform (`SemLockOrphan.DiesHalfWay`).
- **Probe of the platform.** `does_semctl_set_otime` takes a failed `IPC_STAT` for "does not set it"
  (`core/csem.c:87`). On a platform where `SETVAL` does set `sem_otime` the creator then sets the value to 2 and
  lets others in before its extra down. Mutual exclusion holds on all runs if and only if `SETVAL` does not set
  `sem_otime` or that `IPC_STAT` cannot fail (`SemLockProbe.ExclusionIffTrusted`). The safety lemmas assume such
  a platform (`Trusted`).
- **File unlock.** `mosys_unlock` releases the flock before it clears `is_held` (`core/file_lock.c:271-272`), so
  two processes can have `is_held` set at once (`FileLock.TwoHeld`); but only while one of them is between these
  two lines (`FileLock.MutualExclusion`), and what callers learn from return values is what the header promises
  (`FileLockRefinement.RunRefines`).
- **Negative timeouts.** The header says that a timeout below 0 means to try forever
  (`include/mosys/ipc_lock.h:73`). `file_lock_get` makes a negative interval of it (`core/file_lock.c:162-163`),
  which `nanosleep` refuses: it gives up after one attempt. What the header says of a timeout holds exactly for
  those that are not negative (`FileLockCode.RefusedIffNegative`, `FileLockCode.Process.FileLockGet`).
- **Polling.** After an interrupted sleep `sleep_interval` keeps the remainder (`core/file_lock.c:165-168`), so
  all further sleeps are that short: a poll that times out sleeps exactly the timeout if no signal came and at
  most the timeout otherwise (`FileLockCode.Process.FileLockGet`).
- **CBFS.** `cbfs_find` runs for ever exactly when it comes to an entry of another name with len + offset == 0
  (`Cbfs.DivergesIffStuck`; an image on which it does: `Cbfs.RunsForEver`), and the alignment macro is right for
  every value exactly when the alignment is a power of two (`CbfsAlign.AlignIffPowerOfTwo`).
- **Event log.** An entry that ends where the log ends is not handed out: a log of well-formed entries is read
  back if and only if a closing byte is there or nothing to close, and else all but the last entry are
  (`EventLog.RoundTrip`, `EventLog.ReadsBack`). A zero-length entry is handed out again and again:
  `get_next_entry` never gives NULL if and only if it comes to one (`EventLog.NeverEndsIffEmpty`), and the loop of
  `foreach` ends if and only if the callback, called for that entry over and over, completes at last
  (`EventLog.EndsIffStops`). A log on which neither ends: `EventLog.RunsForEver`.
- **EC packets.** Version 3 does not look at the results of its port writes. Success means the EC's answer to the
  caller's request if and only if the write to the command port goes through and every byte whose write is lost was
  in the window already (`CrosEcLpc.SuccessIsAnswerIff`). If the write to the command port is lost and the request is in
  the window as a whole, the host reads back its own request: it reports success for a request that was never made if and only if the ports look ready, there is no data,
  and as many bytes behind the header as the version says fit the caller and sum to 0
  (`CrosEcLpc.SuccessWithoutRequestIff`), so for every command of version 0 without data
  (`CrosEcLpc.SuccessWithoutRequest`). Version 1 looks at its writes (`CrosEcLpc.CommandV1`). The old-style I2C
  checksum does not cover the result byte (`CrosEcI2c.OldCorruptionDetected`).
- **I2C handles.** With 64 handles open `i2c_open_dev` fails for devices that are open, too (`Smbus.I2c.OpenDev`,
  `Smbus.FullTable`). If the driver answers a block write with 0, `smbus_write16_dev` reports nothing as written (`Smbus.ZeroAnswers`).
- **PAIR output.** A reader that takes an escaped quote for a quote gets the pairs back if and only if no value ends in
  a backslash (`KvPair.ReadsBackIff`). For the output itself this is a sufficient condition; what can go wrong without
  it is that two lists print the same (`KvPair.Ambiguous`).

## Model

| member | source | states |
|---|---|---|
| `AbstractMutex.RunIsSafe` | include/mosys/ipc_lock.h:70-89 | On every run of the abstract mutex a client that holds it is its one owner, and is not releasing it |
| `AbstractMutex.ExclusiveUntilUnlock` | include/mosys/ipc_lock.h:77-79 | Between a lock call that returned 0 and the caller's unlock or death, every lock call of another client returns a negative value |
| `SemLockInvariant.InvInit` | core/csem.c:95-131 | No semaphore and no process: the protocol's invariant holds |
| `SemLockInvariant.InvStep` | core/csem.c:68-172 | Every step of every process, its death at any point included, keeps the protocol's invariant |
| `SemLockInvariant.InvRun` | core/csem.c:68-172 | Hence it holds in every state of every run |
| `SemLockInvariant.InvCrash` | core/ipc_lock.c:110-134 | Death at any program point gives back the undo adjustment and keeps the invariant |
| `SemLockInvariant.InvSemop` | core/csem.c:218-276 | A down or up with SEM_UNDO keeps value plus adjustments |
| `SemLockInvariant.InvCreator` | core/csem.c:110-130 | The creator's calls up to the initialisation keep the invariant: nobody else uses the semaphore meanwhile |
| `SemLockInvariant.NoUndo` | core/csem.c:207-216 | Nobody has an adjustment on a semaphore that is not the initialised one, so SETVAL's clearing of adjustments takes nobody's |
| `SemLockSafety.MutualExclusion` | core/ipc_lock.c:83-140 | On every run, at most one process has is_held set, and it is alive |
| `SemLockSafety.OneOwner` | core/ipc_lock.c:110-134 | Nor are there ever two between their down and their up |
| `SemLockSafety.TokenConservation` | core/ipc_lock.c:110-134 | Value plus all live adjustments is 1 in every state after initialisation; the value is 1 exactly when nobody is between down and up |
| `SemLockSafety.DownEnabledIff` | core/csem.c:258-276 | A waiting process gets through exactly when no live process has an adjustment pending |
| `SemLockSafety.CrashRecovery` | core/csem.c:258-276 | The owner's death makes the value 1 at once; the death of another process leaves it as it is |
| `SemLockSafety.InitialisationSafety` | core/csem.c:95-172 | Before any process is past lock_init, the last call of csem_create was made, it left exactly the requested value, and it is that process's semaphore |
| `SemLockSafety.FirstInitialised` | core/csem.c:116-130 | The step that makes sem_otime non-zero is the creator's last one, and leaves the value 1 with no adjustments |
| `SemLockSafety.KeyIsStable` | core/ipc_lock.c:135 | No step unbinds an initialised semaphore or takes its initialisation back |
| `SemLockSafety.StaysInitialised` | core/ipc_lock.c:135 | Nor does any run |
| `SemLockOrphan.OrphanForever` | core/csem.c:155-171 | A semaphore whose creator died half way is never initialised on any run, and nobody ever owns the lock |
| `SemLockOrphan.UsableIffNotOrphaned` | core/csem.c:110-171 | From a reachable state some lock call can still return 0, on a run on which no process dies, if and only if no creator died half way |
| `SemLockOrphan.DiesHalfWay` | core/csem.c:111-128 | For every platform, a run from the start on which the creator dies right after semget and leaves the key orphaned |
| `SemLockOrphan.Drive` | core/csem.c:95-193 | If a process is on its way to the lock and nobody else owns it, wherever it stands, some lock call can still return 0 without any death |
| `SemLockOrphan.CreatorCanFinish` | core/csem.c:110-130 | While a live creator has not finished, some lock call can still return 0 without any death, also if the creator has to remove its semaphore |
| `SemLockOrphan.OwnerCanFinish` | core/ipc_lock.c:110-140 | While a live process owns the lock, some lock call can still return 0 without any death: after an unlock, if need be |
| `SemLockOrphan.FreeStart` | core/ipc_lock.c:83-121 | With a usable key and no owner, some lock call can still return 0 without any death, whatever call a process is in the middle of |
| `SemLockProbe.ExclusionIffTrusted` | core/csem.c:60-93 | Mutual exclusion on all runs if and only if SETVAL does not set sem_otime or the probe's IPC_STAT cannot fail |
| `SemLockProbe.Misread` | core/csem.c:87-128 | On every other platform, a run after which two processes have is_held set |
| `SemLockRefinement.Refines` | core/ipc_lock.c:83-140 | Each step is a step of the abstract mutex, with the values its callers get |
| `SemLockRefinement.RunRefines` | core/ipc_lock.c:83-140 | Each run from the start is a run of the abstract mutex |
| `SemLockCode.CanAct` | core/ipc_lock.c:110-116 | No call of the lock's code is stuck but the down, and that one can time out |
| `SemLockCode.Machine.Others` | core/ipc_lock.c:83-140 | Between two statements of a process the others make any steps; what the process has is unchanged and the invariant kept |
| `SemLockCode.Machine.Take` | core/ipc_lock.c:83-140 | A system call is one step of the run, after any steps of the others |
| `SemLockCode.Process.DoesSemctlSetOtime` | core/csem.c:68-93 | Follows the step system; its answer is the negation of the flag csem_create keeps |
| `SemLockCode.Process.CsemCreate` | core/csem.c:95-131 | A non-negative result is a semaphore this process created and is through with initialising; a failure says whether one existed |
| `SemLockCode.Process.CsemGet` | core/csem.c:136-172 | A non-negative result is the key's semaphore, seen with sem_otime non-zero within 1000 tries |
| `SemLockCode.Process.CsemGetOrCreate` | core/csem.c:174-193 | A non-negative result is an initialised semaphore, created or found |
| `SemLockCode.Process.LockInit` | core/ipc_lock.c:51-63 | 0 with a usable semaphore in the lock, or -1 with none |
| `SemLockCode.Process.Acquire` | core/ipc_lock.c:102-120 | 0 exactly if is_held is now set, and then no other process is between down and up; a failure is a down not granted, which was given no timeout exactly if the argument is negative, and else one that the system calls accept, of exactly that many milliseconds |
| `SemLockCode.Process.MosysLock` | core/ipc_lock.c:83-121 | Positive exactly if held before, non-negative exactly if held now, and then nobody else owns the lock; what happened is a run; -1 has exactly one cause on record: a system call that failed, sem_otime still 0 after 1000 tries, or a down not granted, with no timeout exactly if the argument is negative and else one of exactly that many milliseconds |
| `SemLockCode.Process.MosysUnlock` | core/ipc_lock.c:129-140 | 0 exactly if held before, else -1; not held afterwards; what happened is a run |
| `SemLockCode.Process.constructor` | include/mosys/ipc_lock.h:51-59 | A new process does not hold the lock and has no semaphore |
| `TimeSpecs.MsecsToTimespec` | core/ipc_lock.c:65-70 | The interval stands for exactly the milliseconds, and is one the system calls accept exactly if they are not negative |
| `FileLock.StepShape` | core/file_lock.c:213-280 | A step changes only its own process, and the flock's owner only between nobody and that process |
| `FileLock.InvStep` | core/file_lock.c:213-280 | Every step, death included, keeps the invariant of descriptors and flock |
| `FileLock.OneOwner` | core/file_lock.c:145-189 | At most one process owns the flock |
| `FileLock.HeldMeansOwned` | core/file_lock.c:233-279 | On every run: between calls a process has exactly its lock descriptor open if it holds the lock and none otherwise; is_held means that descriptor owns the flock, except exactly between release and clearing |
| `FileLock.MutualExclusion` | core/file_lock.c:268-274 | Two processes with is_held set: one of them is between flock(LOCK_UN) and the clearing of is_held |
| `FileLock.TwoHeld` | core/file_lock.c:270-272 | A run on which that happens |
| `FileLock.CrashRecovery` | core/file_lock.c:213-220 | The owner's death frees the flock, and the next attempt of any process can succeed and makes it the owner |
| `FileLockRefinement.Refines` | core/file_lock.c:233-279 | Each step is a step of the abstract mutex, with the values its callers get |
| `FileLockRefinement.RunRefines` | core/file_lock.c:233-279 | Each run from the start is a run of the same abstract mutex as the semaphore backend's |
| `FileLockCode.Process.SleepOut` | core/file_lock.c:165-173 | Through any number of signals, the machine sleeps exactly the interval if nanosleep does not fail; the interval left behind is no longer, and the same if no signal came; an invalid interval is refused at once |
| `FileLockCode.Process.FileLockGet` | core/file_lock.c:145-189 | 0 exactly if the flock was granted. In terms of the calls of flock and nanosleep the machine counts: giving up for lack of time, with T > 0 and no failed call, takes exactly T/50 + 1 attempts and exactly T asleep, at most T if signals cut sleeps; success on attempt n comes after n - 1 full naps; T = 0 is one attempt; T < 0 is one attempt and a refused interval, and only then is an interval negative |
| `FileLockCode.RefusedIffNegative` | core/file_lock.c:162-172 | Of the calls that do not get the lock although no other system call fails, exactly those with a negative timeout end on an interval that nanosleep refuses, after one attempt |
| `FileLockCode.Process.MosysLock` | core/file_lock.c:233-260 | For every timeout: positive exactly if held before, non-negative exactly if held now, and then nobody else owns the flock; what happened is a run; -1 only after an open that failed, or after it has waited as file_lock_get does |
| `FileLockCode.Process.MosysUnlock` | core/file_lock.c:268-279 | 0 exactly if held before; afterwards not held and the lock file closed |
| `Runs.LeadsTwice` | core/ipc_lock.c:83-140 | Runs compose: the calls of a process, one after the other, are one run |
| `ScanTree.Sound` | lib/file/file.c:170-249 | Every path found is spelled by names along directories and links to directories, within both budgets; none of the names starts with a dot, the last starts with the file name asked for, and the content it leads to starts with the string asked for |
| `ScanTree.Complete` | lib/file/file.c:170-249 | Every such path is found |
| `ScanTree.FindsExactly` | lib/file/file.c:170-249 | The result set is exactly the set defined by those conditions, which are stated over prefixes of names and contents and over counts of links |
| `ScanTree.PathGrows` | lib/file/file.c:206 | The path of an entry is that of its directory, a slash and its name |
| `ScanTree.SystemSees` | lib/file/file.c:192-241 | Opening a directory and reading a file see the node itself or what its link leads to |
| `ScanTree.LongerContent` | lib/file/file.c:209-236 | A file still leads to the paths it led to if its content grows at the end |
| `ScanTree.LongerName` | lib/file/file.c:208 | An entry of a longer name, leading to the same, is found where one with a matching name is |
| `ScanTree.LargerBudgets` | lib/file/file.c:162-165 | Larger, or unlimited, budgets find at least as much |
| `ScanTree.EntryAdds` | lib/file/file.c:200-245 | One directory entry puts itself, then what is below it, in front of the list |
| `ScanTree.Scanft` | lib/file/file.c:170-249 | Terminates if either budget is not negative, whatever the links; the list is the reversed discovery order in front of the old list; NULL exactly if the directory cannot be walked or the list is empty |
| `ScanTree.VisitUnfolds` | lib/file/file.c:179-198 | A link that may not be followed and what cannot be opened give nothing; else the budgets are spent, and the measure goes down |
| `Words.MaskClears` | lib/cbfs/cbfs_core.c:76-77 | The mask of the alignment macro, bit by bit, takes off the remainder |
| `CbfsAlign.MaskIsLeast` | lib/cbfs/cbfs_core.c:75-77 | For a power of two the macro, in words of any size, is the least multiple not below its argument |
| `CbfsAlign.AlignIsLeast` | lib/cbfs/cbfs_core.c:75-77 | The same for the 64-bit words of the code and the sizes of images |
| `CbfsAlign.AlignUpIsNext` | lib/cbfs/cbfs_core.c:78 | CBFS_ALIGN_UP is the next multiple strictly above |
| `CbfsAlign.AlignIffPowerOfTwo` | lib/cbfs/cbfs_core.c:75-77 | The macro rounds every value up properly if and only if the unit is a power of two |
| `Cbfs.NextAdvances` | lib/cbfs/cbfs_core.c:107-122 | Every step goes to a larger aligned offset, unless the entry has len + offset == 0: then it goes nowhere |
| `Cbfs.DivergesIffStuck` | lib/cbfs/cbfs_core.c:107-122 | The loop runs for ever if and only if it comes to such an entry of another name |
| `Cbfs.RunsForEver` | lib/cbfs/cbfs_core.c:107-122 | For every name but the empty one, an image with a proper master header on which the search for it never ends |
| `Cbfs.CbfsWalk` | lib/cbfs/cbfs_core.c:107-124 | The loop terminates otherwise and computes the specified search |
| `Cbfs.CbfsFind` | lib/cbfs/cbfs_core.c:81-125 | NULL without a master header, else the search's result |
| `Cbfs.WalkAgrees` | lib/cbfs/cbfs_core.c:107-124 | On an image laid out from a list of files the search terminates and gives the first of the name, or NULL, whatever the files' data |
| `Cbfs.FirstEntry` | lib/cbfs/cbfs_core.c:107-124 | On any bytes: an entry of the name with only filler in front of it is found if it starts before the last byte of the archive; else the search ends with NULL |
| `Cbfs.FirstIsThere` | lib/cbfs/cbfs_core.c:116-124 | NULL exactly if no file has the name; else an entry of the list with that name |
| `Cbfs.DataOf` | lib/cbfs/cbfs_core.c:127-154 | The pointer handed out for an entry is to the file's data; with a type, only if it is the file's |
| `Cbfs.CbfsFindFile` | lib/cbfs/cbfs_core.c:139-154 | Computes that pointer from the search; CbfsImage.FoundInImage says what that is on the bytes of a ROM image |
| `Cbfs.CbfsGetFile` | lib/cbfs/cbfs_core.c:127-137 | Computes it without looking at the type; see there, too |
| `CbfsImage.EntryFound` | lib/cbfs/cbfs_core.c:107-122 | The bytes of an entry built from a name, a type and data read back as these |
| `CbfsImage.ArchiveIsLaidOut` | lib/cbfs/cbfs_core.c:92-122 | An image holding the built archive is laid out from the files |
| `CbfsImage.BuildThenFind` | lib/cbfs/cbfs_core.c:81-137 | On an image that holds a built archive: NULL exactly if no file has the name or the first that has it is of another type than asked for, else a pointer to the data of the first that has it |
| `CbfsImage.FoundInImage` | lib/cbfs/cbfs_core.c:48-154 | The same for the bytes of a whole ROM image, with anything in front of the archive, a master header of any romsize, bootblocksize, alignment and offset that fit, and its address at the very end; the search terminates |
| `CbfsImage.SomeFits` | lib/cbfs/cbfs_core.c:92-97 | There is such an image for every list of files and every offset |
| `Words.BitsOf` | drivers/google/cros_ec_lpc.c:114 | Bit by bit, what OR and AND of words are |
| `Words.ByteOrders` | lib/cbfs/cbfs_core.c:59-63 | The pointer at the end is little-endian, the fields are big-endian |
| `EventLog.NextOffsetFacts` | lib/eventlog/elog_smbios.c:144-190 | An entry handed out has offset + length inside the log, and is behind the last one unless that is empty |
| `EventLog.Iterator.Reset` | lib/eventlog/elog_smbios.c:124-132 | Before the first entry again |
| `EventLog.Iterator.GetNextEntry` | lib/eventlog/elog_smbios.c:144-190 | Moves to where the last entry ends, or the data starts, if type and length and one more byte lie inside the log, the type is not 0xff, and at least one byte is behind the entry; or does not move |
| `EventLog.Iterator.GetCurrentEntry` | lib/eventlog/elog_smbios.c:202-218 | The entry the iterator is at, or moves to the first |
| `EventLog.CallsOneByOne` | lib/eventlog/elog_smbios.c:396-404 | Each call gets the entry behind that of the call before, or the same if that is empty, and what the call before left; only the last completes, and if it does not there is no further entry |
| `EventLog.CycleThrough` | lib/eventlog/elog_smbios.c:396-404 | Whenever the walk stops, the loop terminates and returns the OR over exactly these calls |
| `EventLog.OrAllHas` | lib/eventlog/elog_smbios.c:396-404 | A bit is in the OR exactly if it is in the result of some call |
| `EventLog.ForeachEvent` | lib/eventlog/elog_smbios.c:363-409 | -1 and no call if fetch fails or the header does not verify, which is given no header if header and data start together; else the OR of the calls' results |
| `EventLog.EndsIffStops` | lib/eventlog/elog_smbios.c:399-404 | The loop ends after some number of rounds if and only if the walk comes to the end of the log, to a call that completes, or to an empty entry on which the callback, called over and over, completes at last |
| `EventLog.AlwaysStops` | lib/eventlog/elog_smbios.c:399-404 | With a callback that completes on every empty entry, every walk stops |
| `EventLog.NeverEndsIffEmpty` | lib/eventlog/elog_smbios.c:144-190 | get_next_entry, called again and again from reset, never gives NULL if and only if it comes to an empty entry |
| `EventLog.RunsForEver` | lib/eventlog/elog_smbios.c:399-404 | A log of one empty entry: get_next_entry never gives NULL, and the loop never ends with any callback that never completes |
| `EventLog.EmptyStays` | lib/eventlog/elog_smbios.c:158-160 | From an empty entry on, every further call hands out that entry |
| `EventLog.RoundTrip` | lib/eventlog/elog_smbios.c:124-190 | For every header and every list of well-formed entries, followed by nothing or by a 0xff byte and anything: exactly that list is handed out if and only if the closing byte is there or the list is empty |
| `EventLog.ReadsBack` | lib/eventlog/elog_smbios.c:163-181 | With a closing byte all the entries are handed out, without one all but the last |
| `EventLogList.ListArg.Callback` | core/command/eventlog.c:44-106 | The callback follows its specification: -1 and complete on an empty entry, rejected OEM entries passed over, records counted |
| `EventLogList.ListCmd` | core/command/eventlog.c:108-117 | Terminates on every log of any bytes; for each entry as many records are counted as the handler says it has printed, and else one; without such a handler the records are numbered 0, 1, 2, ... and counted; the result is the OR of the results of printing single records, and of -1 if an empty entry is met |
| `EventLogList.NumberedCalls` | core/command/eventlog.c:65-82 | Every record bears the number of records printed before it, also after handlers that print several |
| `EventLogList.CountedCalls` | core/command/eventlog.c:71-82 | What the handler returns for entry and number is counted if it is positive, and else one |
| `EventLogList.SingleNumbers` | core/command/eventlog.c:80-82 | If none prints several, record i bears the number i, and as many are counted as printed |
| `EventLogList.ResultOfCalls` | core/command/eventlog.c:52-106 | The OR of the calls is that of the records' results and of -1 for an empty entry |
| `EventLogList.CbStops` | core/command/eventlog.c:52-56 | With this callback every walk stops: it completes on empty entries |
| `EventLogList.ListsAll` | core/command/eventlog.c:52-106 | Something is printed for exactly the entries that are not rejected, up to the first empty one, in order |
| `EventLogList.ListRoundTrip` | core/command/eventlog.c:108-117 | For all handlers: listing a well-formed log prints exactly its entries, in order, but for the OEM ones whose checksum the platform rejects; all of them if it verifies none |
| `EventLogList.EmptyEntryFails` | core/command/eventlog.c:52-56 | An empty entry makes the whole command return -1 |
| `Checksums.Rolling8Csum` | lib/math/math.c:108-116 | The sum of the bytes modulo 256 |
| `Checksums.OneByteShows` | lib/math/math.c:108-116 | Replacing one byte by another always changes the sum modulo 256 |
| `CrosEcLpc.WaitForEc` | drivers/google/cros_ec_lpc.c:69-86 | 0 only if a status read within the bound found the EC not busy; exactly then if no port access fails |
| `CrosEcLpc.WireCommandAdds` | drivers/google/cros_ec_lpc.c:114 | The command of a device behind others does not overlap its pass-through bits |
| `CrosEcLpc.ChecksumCloses` | drivers/google/cros_ec_lpc.c:119-130 | With its checksum filled in the packet sums to 0 modulo 256 |
| `CrosEcLpc.RequestDecodes` | drivers/google/cros_ec_lpc.c:110-137 | An EC reads command, version and data back from the packet |
| `CrosEcLpc.RequestLayout` | drivers/google/cros_ec_lpc.c:110-127 | The bytes of the request, place by place, and their sum |
| `CrosEcLpc.ResponseLayout` | drivers/google/cros_ec_lpc.c:152-189 | The bytes of a response, place by place, and their sum |
| `CrosEcLpc.ResponseAccepted` | drivers/google/cros_ec_lpc.c:152-189 | A correct response that fits is accepted with exactly its payload |
| `CrosEcLpc.CorruptionDetected` | drivers/google/cros_ec_lpc.c:160-186 | Any one changed byte of an accepted response, but for the two of its length, is rejected: payload, checksum, version, reserved, result |
| `CrosEcLpc.WriteRequestV3` | drivers/google/cros_ec_lpc.c:110-134 | Whichever writes are lost: the window is as it was but for the bytes of the request whose writes go through |
| `CrosEcLpc.ReadResponseV3` | drivers/google/cros_ec_lpc.c:139-190 | 0 only if the EC was ready in time, without error, and the response is acceptable, and then exactly its payload is in the buffer; exactly then if no read fails; nothing written from insize on |
| `CrosEcLpc.CommandV3` | drivers/google/cros_ec_lpc.c:91-190 | Whichever writes are lost: the request issued, if any, the success reported and the payload are those of the specified attempt, success exactly then if no read fails; the caller's request is issued if no write is lost; nothing else of the buffer changes, and a request too big touches nothing |
| `CrosEcLpc.DecodesIff` | drivers/google/cros_ec_lpc.c:110-137 | The EC reads command, version and data from the window if and only if it holds exactly the packet they make, checksum included |
| `CrosEcLpc.GetsRequestIff` | drivers/google/cros_ec_lpc.c:119-137 | The EC gets the caller's request if and only if the write to the command port goes through and every byte whose write is lost was in the window already |
| `CrosEcLpc.SuccessIsAnswerIff` | drivers/google/cros_ec_lpc.c:119-189 | A reported success is the EC's good answer to the caller's request if and only if that is so |
| `CrosEcLpc.LostCommandIff` | drivers/google/cros_ec_lpc.c:152-186 | A request read back as the response is accepted if and only if it has no data, its version is a length that fits, and as many bytes behind the header sum to 0 |
| `CrosEcLpc.SuccessWithoutRequestIff` | drivers/google/cros_ec_lpc.c:136-189 | With the write to the command port lost and the packet in place, no request is made, and success is reported if and only if the ports are ready without error and that condition holds of the window as it was before |
| `CrosEcLpc.SuccessWithoutRequest` | drivers/google/cros_ec_lpc.c:136-189 | It does for every command of version 0 without data |
| `CrosEcLpc.ExchangeV3` | drivers/google/cros_ec_lpc.c:91-190 | With an EC that answers correctly in time, success exactly if the answer fits, and the payload is the answer |
| `CrosEcLpc.ArgsResponseAccepted` | drivers/google/cros_ec_lpc.c:252-291 | A correct version 1 response that fits, with the flag that it is to the host, is accepted with its payload |
| `CrosEcLpc.AnswerAccepted` | drivers/google/cros_ec_lpc.c:252-291 | So with flags 2 |
| `CrosEcLpc.RequestIsNoAnswer` | drivers/google/cros_ec_lpc.c:259-265 | A request that an old EC has left in place is never taken for a response |
| `CrosEcLpc.ArgsCorruptionDetected` | drivers/google/cros_ec_lpc.c:274-289 | Any one changed byte of its arguments and payload, but for the size, is rejected |
| `CrosEcLpc.WriteArgs` | drivers/google/cros_ec_lpc.c:218-230 | Fails exactly if a write is lost; else an EC reads command, version and data back from arguments and parameters |
| `CrosEcLpc.ReadResponseV1` | drivers/google/cros_ec_lpc.c:236-291 | 0 only if ready in time, without error, acceptable, with exactly the payload in the buffer; exactly then if no read fails; nothing written from insize on |
| `CrosEcLpc.CommandV1` | drivers/google/cros_ec_lpc.c:194-292 | A request, the caller's, is issued only if the EC is ready and no write is lost, and exactly then if no read fails; 0 only if it was issued and answered well, with exactly the payload; exactly then if no read fails |
| `CrosEcLpc.ExchangeV1` | drivers/google/cros_ec_lpc.c:194-292 | With an EC that answers correctly, success exactly if the answer fits, and the payload is the answer |
| `CrosEcI2c.RequestDecodes` | drivers/google/cros_ec_i2c.c:75-104 | Both styles of request read back as command, version and data |
| `CrosEcI2c.RequestIs` | drivers/google/cros_ec_i2c.c:75-104 | The bytes of both styles of request, place by place |
| `CrosEcI2c.NewResponseAccepted` | drivers/google/cros_ec_i2c.c:137-168 | A correct new-style response is accepted with its payload |
| `CrosEcI2c.NewOutcome` | drivers/google/cros_ec_i2c.c:137-168 | It makes the command return 0 and exactly its payload |
| `CrosEcI2c.NewError` | drivers/google/cros_ec_i2c.c:139-147 | An error makes it return its code and no payload |
| `CrosEcI2c.NewCorruptionDetected` | drivers/google/cros_ec_i2c.c:139-165 | In a new-style response any one changed byte is noticed |
| `CrosEcI2c.NewCorrupted` | drivers/google/cros_ec_i2c.c:139-168 | With one byte of a good response changed the command returns an error: the result itself if it is that byte, else -1 |
| `CrosEcI2c.OldCorruptionDetected` | drivers/google/cros_ec_i2c.c:170-192 | In an old-style response exactly the result byte is not protected |
| `CrosEcI2c.OldOutcome` | drivers/google/cros_ec_i2c.c:170-202 | A good old-style response makes the command return its result, and its payload |
| `CrosEcI2c.OldCorrupted` | drivers/google/cros_ec_i2c.c:170-202 | With one byte of it changed the command returns -1, but a changed result is returned |
| `CrosEcI2c.FillRequest` | drivers/google/cros_ec_i2c.c:75-104 | The buffer holds the request of the style the version asks for |
| `CrosEcI2c.CommandI2c` | drivers/google/cros_ec_i2c.c:58-203 | Return value and payload follow from the bus's reply; nothing else of the buffer changes; too big sizes touch nothing |
| `Smbus.I2c.OpenDev` | intf/i2c.c:84-129 | A device that is open keeps its handle; another gets a new one exactly if its one attempt to open succeeds; with a full table -1 for all; other handles stay |
| `Smbus.FullTable` | intf/i2c.c:89-99 | A full table of handles in which an open device is refused |
| `Smbus.I2c.CloseDev` | intf/i2c.c:137-148 | All handles are closed |
| `Smbus.I2c.ReadRegisters` | intf/i2c.c:235-274 | For every pattern of failing accesses the loop terminates and yields what byte reads would |
| `Smbus.I2c.SmbusReadReg` | intf/i2c.c:213-275 | The counted bytes are the device's registers, commands wrapping at 256, the rest is zero; it stops only at a failed byte read; word reads are off for good exactly from the first failed one; -1 exactly for a bad length, a full table, or a device that is not open and cannot be opened |
| `Smbus.I2c.Write16Buf` | intf/i2c.c:405-444 | One block write of at most 31 bytes at the 16-bit offset |
| `Smbus.I2c.WriteChunks` | intf/i2c.c:464-486 | For any answers the loop ends with acknowledged chunks, and at most one more that was not |
| `Smbus.I2c.Write16Dev` | intf/i2c.c:446-487 | The count is the length of the consecutive fully acknowledged chunks; they cover that many bytes at reg on, once each; nothing is sent exactly with a full table or a device that is not open and cannot be opened |
| `Smbus.OneMoreChunk` | intf/i2c.c:464-485 | A further chunk, acknowledged or not, keeps that |
| `Smbus.PageOf` | intf/i2c.c:399-403 | From a 32-aligned reg no chunk crosses a 32-byte page |
| `Smbus.ZeroAnswers` | intf/i2c.c:466-468 | A driver that answers with 0 makes the result 0 |
| `LinkedList.ListHead` | core/list.c:39-44 | From any node back to the first |
| `LinkedList.LinksInverse` | core/list.c:46-76 | What the lists below are: next and prev are inverse, and the ends lead nowhere |
| `LinkedList.ListInsertBefore` | core/list.c:46-61 | In front of any node, or on its own: prev and next stay inverse, the data is the sequence with the new datum inserted there |
| `LinkedList.ListDelete` | core/list.c:64-76 | Any node: prev and next stay inverse, the data is the sequence without it, the head is right, the node is freed once |
| `LinkedList.ListCleanup` | core/list.c:79-90 | Every node is freed once, none read after that |
| `LinkedList.ListCount` | core/list.c:93-103 | The number of nodes |
| `LinkedList.ListForeach` | core/list.c:106-120 | Each node once, in order, even if the callback frees it |
| `Callbacks.DestroyCallbacks.Add` | core/callbacks.c:50-63 | Registers behind what is registered; a null function is ignored |
| `Callbacks.DestroyCallbacks.Invoke` | core/callbacks.c:71-85 | Every callback is called once with its argument, in reverse order of registration |
| `Callbacks.DestroyCallbacks.Cleanup` | core/callbacks.c:93-105 | Every registration and every node is freed once, and the list is empty |
| `Basics.ReverseConcat` | core/callbacks.c:62 | Adding at the head reverses: what comes later comes first |
| `Basics.ReverseAt` | core/callbacks.c:62 | What is i-th is i-th from the end |
| `HexDump.PrintBuffer` | core/output.c:71-119 | The text is the dump of the first `length` bytes; an empty line for none |
| `HexDump.PadLine` | core/output.c:98-105 | A short line is filled up to the 16 columns, the gap included wherever it falls |
| `HexDump.BlankColumns` | core/output.c:98-104 | Behind the last byte the layout is only blanks |
| `HexDump.Shape` | core/output.c:83-115 | For a length above 0: ceil(length / 16) lines of exactly 78 columns, and no other line ends |
| `HexDump.LineIs` | core/output.c:83-115 | Line k, character by character: the address 16 k in eight hex digits, two hex digits for each byte or blanks behind the last, a gap half way, and between bars the character of each byte or a dot, or blanks |
| `HexDump.ReadsBack` | core/output.c:83-115 | The hex columns decode to the buffer |
| `KvPair.Add` | core/kv_pair.c:84-110 | The new pair is the last of the list, whichever node is given; the rest is unchanged |
| `KvPair.PrintToFile` | core/kv_pair.c:193-250 | The text is that of the pairs with both key and value, in order, and a newline; the result is 0 |
| `KvPair.PrintPair` | core/kv_pair.c:204-216 | Key, then the value with its quotes escaped, in quotes |
| `KvPair.ReadsBackIff` | core/kv_pair.c:204-216 | With plain keys, a reader that takes escaped quotes for quotes gets back exactly the pairs if and only if no value ends in a backslash |
| `KvPair.Ambiguous` | core/kv_pair.c:204-216 | Two different lists that print the same text |

## Left out

- Kernel assumptions of the semaphore model: a semop that finds enough value does not fail in csem_create's down or in csem_up_undo, nobody outside the protocol removes or sets the semaphore, identifiers are not used again, no fork.
- Fairness and liveness of unbounded waiting for the semaphore: what is proved is that nobody but the owner keeps a waiter from the lock, and that the lock can be had.
- FileLockCode.Process.FileLockGet: signals during one poll are finitely many.
- FileLockCode.Process.MosysLock: the content of the lock file (PID), the fallback directory and Android paths are left out.
- ScanTree.Scanft: files that cannot be opened or are shorter than the string count as not matching; the C code reads through a null pointer or compares uninitialised memory there. PATH_MAX truncation, ELOOP and changes of the tree during the walk are left out. If neither budget is given, links must not form cycles.
- sysfs_lowest_smbus: a running minimum over names, an easy member.
- Cbfs.CbfsFind: requires that the header pointer leads into the image, that the archive it describes lies inside and has an alignment that is a power of two and fits an int, and that no empty entry of another name is met (else it runs for ever); 32-bit overflow of offsets is left out. A name without NUL ends with the image.
- Cbfs.CbfsFindFile: the same as Cbfs.CbfsFind, which it calls.
- Cbfs.CbfsGetFile: the same as Cbfs.CbfsFind, which it calls.
- CbfsImage.FoundInImage: romsize may be larger than the image, but bootblocksize leaves room for a file header; cbfs_decompress is not part of this model.
- EventLog.ForeachEvent: where the walk does not stop, the loop runs for ever and there is no result to speak of; data_offset is not negative.
- EventLog.CycleThrough: the same as EventLog.ForeachEvent.
- Timestamps, type names and OEM handlers of the event log: arbitrary functions of the entry.
- EventLogList.ListCmd: what is printed inside a record is not modelled, only that one is printed, for which entry and with which number.
- CrosEcLpc.CommandV3: nothing is claimed of the value of an error (it is a loop index in one case). The window reaches as far as the 16-bit length of a response can lead; what lies at the ports behind the packet is arbitrary.
- CrosEcLpc.CommandV1: only for at most EC_HOST_PARAM_SIZE bytes of data to send, which its caller makes sure of (drivers/google/cros_ec_lpc.c:399-402); the same for CrosEcLpc.WriteArgs.
- CrosEcLpc.WriteArgs: see CrosEcLpc.CommandV1.
- CrosEcLpc.CorruptionDetected: not for the bytes of the length, which decide how far the sum goes; the same in CrosEcLpc.ArgsCorruptionDetected.
- cros_ec_command_lpc_v0, the detection of the EC and the wrapper that takes the EC lock are not part of this model; neither is the EC's firmware, which is an arbitrary function of the request.
- CrosEcLpc.RequestHeader: byte order of the header as on the little-endian hosts the code runs on.
- Smbus.I2c.Write16Dev: the answer of the driver to a block write is an arbitrary number; that the Linux ioctl answers 0 on success is taken up only in Smbus.ZeroAnswers.
- The other SMBus operations (16-bit reads, byte writes, raw and block transfers) are not part of this model: the same loops with less state.
- Callbacks.DestroyCallbacks.Invoke: the functions called are recorded, not run; a callback that registers or removes callbacks is left out.
- KvPair.PrintToFile: only KV_STYLE_PAIR; kv_pair_fmt, kv_pair_free, the global style and the other styles are left out.
- Memory allocation failure and log messages everywhere; dynamic arrays, GPIO, SuperIO, PCI, SATA and platform tables.
