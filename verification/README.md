# sys_monitor: verification model

sys_monitor is a kernel module that hooks system calls, keeps for every process a cache from file
descriptors to paths, writes one log record per hooked call into a ring buffer, and a user-space
reader that decodes and filters those records. This project models its stateful parts in Dafny and
proves what they keep over whole runs.

| file | models |
|---|---|
| `Common.dfy` | options, C strings, facts about sequences |
| `FdRecords.dfy`, `FdCache.dfy` | the cache on the heap: a doubly linked list of all records, an array of "hot" records sorted by fd, and a circular list of the hot records by age, all over the same nodes |
| `FdCacheSpec.dfy`, `FdCacheRuns.dfy` | what that cache means (a list and an order of promotion), and theorems over every run of calls |
| `FdCacheService.dfy` | the cache on the heap serving any sequence of requests: it makes such a run, and answers about every fd that is never inserted twice like a plain map |
| `CacheView.dfy`, `ProcessTable.dfy` | the slot table, the list of outstanding records, `notify_enter`, `notify_execve` and the cache calls of the current process |
| `Hooks.dfy`, `Coherence.dfy` | the system call hooks, called by any processes in any order on one table, and the agreement of each cache with the kernel about each descriptor number over every run |
| `CycleBuffer.dfy`, `CycleBufferRuns.dfy` | the ring of bytes as a queue, and byte conservation over every run |
| `LogDetails.dfy`, `LogRecord.dfy` | parameter formatting, the bounded join, the record layout and its parser |
| `LogPipeline.dfy`, `SysReader.dfy` | producers, ring and reader as one step system; the reader's loop with its columns and its filter |
| `EndToEnd.dfy` | both halves joined: from a hooked call to the record that the reader decodes |
| `Filter.dfy` | the rule list |
| `TraceDog.dfy` | the reference count that guards unloading |

Conventions. Objects that the program updates in place are classes whose methods are proved against
functions or relations over plain values; runs are stated over those values. What the kernel or the
C library decides (allocation, user copies, path lookups, the results of the original system calls)
comes in as parameters, so every theorem holds for every choice. Words have 4 bytes, as on the 32-bit
ARM kernels that `driver/main.c` supports, least significant byte first: `sizeof(log_header)` is 40 and
`sizeof(log_item)` is 56. A
negative result of `sys_open` becomes an unsigned fd of at least 2^31. A C `char` is a Dafny `char`.
The cache theorems hold for every capacity of at least 2 (the program uses 16), the ring theorems for
every size above 0.

Where the code departs from what it seems to intend, the model follows the code:

- A read that crosses the end of the ring and faults in its first copy reports the bytes it stored but
  leaves them in the ring (`driver/interface.c:222-235`). `ConservedIff` says that this is the only way
  bytes are duplicated, and `FaultRedelivers` is a run in which it happens.
- `interface_open` returns 0 even when it refuses the caller (`driver/interface.c:166-170`);
  `InterfaceOpen` states it.
- The ring is not cleared between readers. A reader that leaves between a header and its content, or
  that stops there for lack of memory and then closes the device, makes the next one start inside a
  record. `BoundaryAfterRelease` says exactly when; in `LeavingEarlyStopsTheNext` the next reader stops
  although it never lacks memory.
- `interface_read` never asks who the owner is, so a process that `interface_open` refused can take bytes
  from the first reader's records. `StepKeepsFramingIff` says that framing is lost exactly when it takes
  any, and `ForeignReadStopsReader` is a run in which the owner then stops.
- `fake_sys_close` forgets the record only when the kernel answers 0, but a kernel that reports a late
  error has removed the descriptor all the same. `CloseKeepsCoherentIff` says exactly when this leaves a
  stale pair, `FailedCloseLeavesStalePair` is a run in which the old path is then logged for a new file.
- A cached path is the one the file had when it was first seen; renaming, unlinking and `dup2` are not
  hooked. `UnhookedKeepsCoherentIff` says exactly when agreement survives, `RenameIsNotSeen` is a run in
  which the old path is logged.
- `fake_sys_open` caches every result but -1, so other error codes are cached as huge fds, any number of
  times. Agreement is therefore stated number by number: `OpenKeepsCoherentIff` says exactly when an open
  spoils it, for which number, and `ErrorCodeIsLogged` is a run in which a path is logged for a number
  that is no descriptor. What a duplicate does to the cache itself is said by `ServesLikeMapIff` (it
  spoils the answers about its own fd only) and by `DuplicateIsAnswered`.
- When the kernel's path of a new descriptor cannot be obtained, the name given by the caller is cached
  instead, relative or not. `OpenKeepsCoherentIff` says exactly when agreement survives,
  `RelativeNameIsLogged` gives a run in which a wrong path is logged.
- A hit on a hot record does not make it younger: eviction is by time of promotion, not of use.
  `RingByLastUseIff` says exactly when the two orders are the same, `UsedRecordIsEvicted` that a record
  can be evicted right after a hit.
- Number 23, `sys_kill`, has no name in `ApiToString` and is shown as unknown.
- A signal makes `trace_dog_enter` and `trace_dog_leave` skip their counting and makes the wait for
  unloading stop whatever the count. `UnloadIsSafeIff` says exactly when nobody is inside a hook
  afterwards; `SkippedEnterUnloadsEarly` and `SkippedLeaveNeverReachesZero` are runs for both errors.
- Adding an exclude rule at the end of the list makes logs that no rule matches printed, adding an
  include rule makes them dropped (`AddedRule`).
- `ReadContent` receives the stored offsets but splits by string length; `OffsetsAgree` and
  `ContentRoundTrip` say that both give the same strings.

## Model

| member | source | states |
|---|---|---|
| FdCache.FdArea.Initize | driver/fd_cache.c:105-117 | whatever the record held, afterwards the cache is valid and empty |
| FdCache.FdArea.FindRecordInHotCache | driver/fd_cache.c:141-177 | the bisection returns a hot record with the fd, with its index, exactly when one exists, so a miss proves that none is hot |
| FdCache.FdArea.FindRecordInLink | driver/fd_cache.c:180-198 | the list walk returns the record with the fd that stands in front of all others with it, or null exactly if there is none |
| FdCacheSpec.FirstIsFirst | driver/fd_cache.c:180-198 | a record is what the walk finds if and only if it has the fd and no record before it has |
| FdCache.FdArea.GetInsertIndex | driver/fd_cache.c:244-300 | on every sorted array p is in 0..n with a[p-1] <= fd <= a[p], and on a non-empty one the search leaves by one of its breaks, so the "assert last" value is never returned |
| FdCache.FdArea.MakeRoom | driver/fd_cache.c:333-372 | the three shift cases free exactly the slot that the new record needs once the victim is dropped, and every moved record knows its new index |
| FdCache.FdArea.PlaceByFd | driver/fd_cache.c:328-376 | the array afterwards is the old one without the victim and with the new record, sorted, every index stored in its record |
| FdCache.SlotKeepsSorted | driver/fd_cache.c:333-376 | whichever side of the insertion point the victim sat, the adjusted slot keeps the array sorted |
| FdCache.FdArea.UnlinkFromRing | driver/fd_cache.c:321-323 | taking any node out of the circular list leaves one cycle through the others in the same order |
| FdCache.FdArea.LinkYoungest | driver/fd_cache.c:378-396 | the new node becomes the head of one cycle through all |
| FdCache.FdArea.EvictOldest | driver/fd_cache.c:308-326 | a full ring loses exactly its last node and the index found is that node's |
| FdCache.FdArea.InsertIntoHotCache | driver/fd_cache.c:302-442 | keeps the whole invariant (list, sorted array with stored indices, cycle, equal membership of array and ring, hot within list) and puts the record at the head of the ring, dropping the last one when full |
| FdCache.FdArea.InsertIntoLink | driver/fd_cache.c:445-472 | keeps the invariant; a new record goes to the head of the list, or nothing changes when memory is short |
| FdCache.FdArea.DeleteFromRecord | driver/fd_cache.c:475-588 | keeps the invariant; takes one record with the fd out of the list, and out of array and ring exactly if it was hot; reports whether there was one; is one deletion step of the run system |
| FdCache.FdArea.GetInternal | driver/fd_cache.c:590-650 | keeps the invariant; answers with the path of a record with the fd, promotes it only if it was not hot, never changes the list; is one lookup step of the run system |
| FdCache.FdArea.Get | driver/fd_cache.c:652-677 | search with fallback: a miss is filled from the kernel's path if there is memory, and then answered |
| FdCache.FdArea.Insert | driver/fd_cache.c:679-718 | keeps the invariant; the new record is first in the list and first in the ring; is one insertion step of the run system, or nothing without memory |
| FdCacheRuns.RunKeepsInv | driver/fd_cache.c:302-650 | over every run of insertions, lookups and deletions no record repeats in list or ring, the ring is within list and capacity |
| FdCacheRuns.RingByPromotionTime | driver/process.h:48-48 | in every reachable state the ring read from its head is in strictly decreasing order of promotion time |
| FdCacheRuns.EvictsEarliestPromoted | driver/fd_cache.c:315-326 | what an insertion or a lookup drops is the record promoted earliest of all hot ones; it stays in the list and all others stay hot |
| FdCacheRuns.RingByLastUseIff | driver/fd_cache.c:605-624 | the ring is ordered by time of last use all along a run if and only if every search that finds a hot record finds the head of the ring |
| FdCacheRuns.UsedRecordIsEvicted | driver/fd_cache.c:315-326 | a hit on the oldest record of a full ring does not save it from the next insertion, which keeps all others |
| FdCacheRuns.FastRefinesSlow | driver/fd_cache.c:605-624 | for an fd with at most one record, hot search then list search gives exactly the record of a full list search |
| FdCacheRuns.SearchesAgree | driver/fd_cache.c:590-650 | between two searches for such an fd, however other fds are inserted, deleted, evicted or duplicated, the answer is the same record |
| FdCacheRuns.SearchFindsNewest | driver/fd_cache.c:590-624 | after an insertion, whatever is done to other fds and however many older records the fd has, a search finds a hot record of the fd if there is one and otherwise exactly the inserted one, which is hot at first |
| FdCacheRuns.DeleteTakesOne | driver/fd_cache.c:475-588 | a deletion finds a record exactly when the list has one with the fd, hot or not, removes exactly that one, and leaves every other hot or cold as it was |
| FdCacheRuns.InsertDeleteRestores | driver/fd_cache.c:679-747 | inserting an fd that the list lacks and deleting it gives that record back and restores the list |
| FdCacheRuns.GetIsRun | driver/fd_cache.c:652-677 | a search with fallback is one lookup, or on a miss that is filled exactly a failed lookup, an insertion and a lookup that finds the inserted record |
| FdCacheRuns.GetAnswersAndPromotes | driver/fd_cache.c:652-677 | the answer is the cached path of an fd with one record, else the kernel's path if memory allows; an answered fd has exactly one record and is hot; without memory the list is unchanged |
| FdCacheService.ServeAll | driver/fd_cache.c:590-747 | executes any sequence of insertions, searches and deletions on the real structure, with any outcome of allocation and from any earlier content; for every fd that is not inserted while it has a record, whatever happens to other fds, every answer about it is that of a plain map from fds to paths |
| FdCacheService.ServedRunIsRun | driver/fd_cache.c:590-747 | what such an execution does is a run of the abstract cache, made of the calls that the requests ask for |
| FdCacheService.ServesLikeMapIff | driver/fd_cache.c:590-747 | if the list shows the map's record of an fd, a request about it gets the map's answer, and the list shows the map's record afterwards if and only if the request does not insert that fd a second time |
| FdCacheService.ShowsMapIff | driver/fd_cache.c:590-747 | over every sequence, from any such moment on, list and map agree about an fd all along if and only if it is not inserted while it has a record |
| FdCacheService.DuplicateIsAnswered | driver/fd_cache.c:475-588 | after inserting an fd twice, deleting it and searching for it without memory, every execution answers with a path where the map has none |
| FdCacheService.ServeTwice | driver/fd_cache.c:475-588 | such an execution on the real structure |
| ProcessTable.Table.NotifyEnter | driver/process.c:376-443 | the outstanding list and the non-null slots stay in one-to-one correspondence with disjoint caches; afterwards the caller's slot has its own start time, no stale flag, and an empty cache unless the record was current; a record that started over has the caller's binary; no other slot changes |
| ProcessTable.Table.Rebuild | driver/process.c:299-353 | a record in use is emptied and takes the caller's start time and binary, in its place on the list, and no other record changes |
| ProcessTable.Table.Register | driver/process.c:423-441 | a new record joins the head of the list and fills the caller's slot only |
| ProcessTable.Table.PushRecord | driver/process.c:327-343 | the doubly linked list afterwards is the new record followed by the old list |
| ProcessTable.Table.NotifyExecve | driver/process.c:445-469 | marks the caller's record stale, if there is one, and changes nothing else |
| ProcessTable.Table.GetCacheByFd | driver/fd_cache.c:590-677 | on the caller's record only: the answer is one of the listed paths of the fd, else the kernel's path, which is then listed |
| ProcessTable.Table.InsertIntoCache | driver/fd_cache.c:679-718 | on the caller's record only: the pair is listed first; without a record, a path or memory nothing changes |
| ProcessTable.Table.DeleteCacheByFd | driver/fd_cache.c:720-747 | on the caller's record only: one pair with the fd goes, exactly if there is one |
| Hooks.Machine.FakeSysOpen | driver/sys_calls/open.c:65-117 | is one open step of its process for every result, including error codes; with memory and a look-up that works the first pair of its slot is the new descriptor with the kernel's path; it is one step of the system of all processes, so no other process's slot changes |
| Hooks.Machine.FakeSysRead | driver/sys_calls/read.c:23-52 | is one read step of its process, and hands the log a copy of the path found, if there is memory for it; it is one step of the system of all processes, so no other process's slot changes |
| Hooks.Machine.FakeSysClose | driver/sys_calls/close.c:23-61 | is one close step of its process for every answer of the kernel, also when it removes the descriptor and reports an error; the record goes only on 0; it is one step of the system of all processes, so no other process's slot changes |
| Hooks.Machine.FakeSysExec | driver/sys_calls/exec.c:48-79 | is one execve step of its process; it is one step of the system of all processes, so no other process's slot changes |
| Coherence.EnterSettles | driver/process.c:391-422 | notify_enter leaves a current record that is not stale as it is and makes any other start over empty; afterwards it is current, not stale and agrees with the kernel about the number, whatever doubt there was before; there is none exactly if there was none and no memory |
| Coherence.OpenKeepsCoherentIff | driver/sys_calls/open.c:78-101 | an open call keeps agreement about a number, error codes included, if and only if its result is another number, or it caches nothing, or it caches the kernel's path of a new descriptor |
| Coherence.OpenCaches | driver/sys_calls/open.c:78-101 | after an open the new pair stands first: the kernel's path when it could be had, only without it the caller's name, only without that the placeholder; a failed open is listed under its error code in 32 bits, -1 never, and nothing without memory |
| Coherence.OpenWithLookupIsSafe | driver/sys_calls/open.c:83-96 | an open whose look-up works is safe for every number |
| Coherence.ReadCaches | driver/fd_cache.c:652-677 | a listed number stays as it is and is answered from the list; an open descriptor that is not listed is listed first under the kernel's path and answered with it, if look-up and memory allow |
| Coherence.CloseForgets | driver/sys_calls/close.c:49-56 | a close that the kernel answers with 0 keeps agreement about every number and leaves no record of its own |
| Coherence.CloseKeepsCoherentIff | driver/sys_calls/close.c:35-56 | a close keeps agreement about its number if and only if the kernel answers 0 or keeps the descriptor, or the process has no record and gets none, or the descriptor was not cached before and the hook could not fill it in; about other numbers always |
| Coherence.UnhookedKeepsCoherentIff | driver/sys_calls/open.c:20-60 | a rename, unlink, `dup2` or close that no hook sees keeps agreement about a number if and only if it concerns another one, or the path stays the same, or the cache would not serve the descriptor; an open that no hook sees always does |
| Coherence.NextKeepsCoherentIff | driver/process.c:376-469 | every hooked call, execve, exit, the reuse of the pid and everything that happens without a hook keeps agreement about a number, up to the stale flag and an older start time, if and only if it is safe for it, which is decided by what is known before the call and by the answers of kernel and allocator |
| Coherence.AgreementStartsHere | driver/process.c:391-422 | agreement about every number is there at the start and after every execve and every new process with the pid, whatever was cached before |
| Coherence.RunCoherentIff | driver/process.c:376-469 | in every interleaving of any processes on one table, from any moment of agreement on, a process's slot agrees with the kernel about a number all along if and only if that process's own calls are safe for that number |
| Coherence.LoggedPathIsKernelPath | driver/log.c:363-377 | if a process's calls since a moment of agreement were safe for a number, of any size, the path that its hook hands to the log for it is the kernel's current path of an open descriptor or none, and it is handed over whenever memory for record, node and copy and the lookup allow |
| Coherence.OrdinaryCallsLogRight | driver/log.c:363-377 | if look-ups of a descriptor work when it is opened, closes that remove it answer 0 and it is not changed without a hook, every path logged for it is the kernel's, in every interleaving, whatever happens to other descriptors and to memory |
| Coherence.RelativeNameIsLogged | driver/sys_calls/open.c:83-91 | without the lookup a wrong path can be cached and logged: a concrete run |
| Coherence.ErrorCodeIsLogged | driver/sys_calls/open.c:78-96 | a failed open lets a path be logged for a number that is no descriptor: a concrete run |
| Coherence.FailedCloseLeavesStalePair | driver/sys_calls/close.c:42-56 | a close that removes the descriptor and reports an error lets the old path be logged for a new file: a concrete run |
| Coherence.RenameIsNotSeen | driver/fd_cache.c:590-677 | after a rename the old path is logged: a concrete run |
| CycleBuffer.Device.GetUsedSize | driver/interface.c:49-63 | the length of the queue; zero exactly when the two pointers are equal |
| CycleBuffer.Device.CopyToBuffer | driver/interface.c:66-91 | stores the data from the position on, round the end, and returns the wrapped end position, always inside the buffer |
| CycleBuffer.StoreAppends | driver/interface.c:113-121 | such a store at the write pointer appends the data to the queue, round the end or not |
| CycleBuffer.Device.WriteToInterface | driver/interface.c:94-129 | a write to a ready ring is appended whole exactly when unread bytes and data together stay below the size; any other write changes nothing |
| CycleBuffer.WriteIsAppendedIffItFits | driver/interface.c:113-121 | the same for the queue: no other condition decides |
| CycleBuffer.LimitedRead | driver/interface.c:191-261 | user memory that takes a limited number of bytes gets the oldest wanted bytes up to that limit, crossing or not, and they leave the ring unless the limit lies in the first copy of a crossing read |
| CycleBuffer.Device.InterfaceRead | driver/interface.c:174-269 | hands over and removes the oldest min(count, used) bytes, also round the end; with faults, exactly what was copied, and nothing is removed if the first copy of a crossing read faults |
| CycleBuffer.CompleteRead | driver/interface.c:191-261 | with complete user copies a read is the dequeue of min(count, used) bytes |
| CycleBuffer.Device.InterfaceOpen | driver/interface.c:134-171 | makes the first reader the owner and the device ready; answers 0 to everybody |
| CycleBuffer.Device.InterfaceRelease | driver/interface.c:281-301 | only the owner's release frees the device |
| CycleBufferRuns.ConservedIff | driver/interface.c:94-269 | over every run, delivered bytes followed by unread bytes equal the accepted bytes if and only if no crossing read faulted in its first copy after storing something |
| CycleBufferRuns.SmallRunAcceptsAll | driver/interface.c:113-121 | a ready ring larger than everything written accepts everything, in order, whatever is read in between |
| CycleBufferRuns.FaultRedelivers | driver/interface.c:222-235 | a concrete run that delivers a byte and keeps it |
| LogDetails.DigitsValue | driver/log.c:447-447 | formatted digits read back as the number, in base 10 and 16, with or without padding |
| LogDetails.DecimalReads | driver/log.c:447-447 | a decimal is a minus sign exactly for negative numbers and the shortest digits that read back as the number |
| LogDetails.HexReads | driver/log.c:478-478 | a hexadecimal text is 0x and eight lower-case digits that read back as the number |
| LogDetails.DecimalFits | driver/log.c:439-447 | a formatted int has at most 11 characters, so its buffer suffices |
| LogDetails.HexFits | driver/log.c:470-478 | a formatted unsigned int has exactly 10 characters, which its buffer just holds |
| LogDetails.LogItem.AddIntParam | driver/log.c:436-460 | stores the text in the next free slot, at least 2 characters and within its buffer; keeps the slot free without memory |
| LogDetails.LogItem.AddUnsignedIntParam | driver/log.c:467-491 | the same for an unsigned int |
| LogDetails.LogItem.AddStringParam | driver/log.c:494-535 | the same for a string, or its placeholder |
| LogDetails.LogItem.AddVoidParam | driver/log.c:409-433 | the same for the fixed text |
| LogDetails.JoinParams | driver/log.c:577-619 | never writes outside the details buffer; the text is the join of as many parameters as fit, perhaps with a trailing separator |
| LogDetails.CutIsPrefix | driver/log.c:577-619 | the details are always a prefix of the full join, and equal to it if and only if the join is shorter than the buffer |
| LogDetails.CutIsUnique | driver/log.c:577-619 | parameters and buffer size determine the details, the trailing separator included |
| LogDetails.JoinReads | driver/log.c:583-612 | the join is the parameters with comma and space between them, a missing one as its placeholder |
| LogRecord.HeaderRoundTrip | driver/log.c:134-141 | a header read back from its 40 bytes is the same header |
| LogRecord.HeaderBytes | share/log_def.h:73-85 | each field of the header stands at its offset in the order of the struct |
| LogRecord.WordBytes | driver/log.c:134-135 | a word is stored least significant byte first, in two's complement |
| LogRecord.RecordBytes | driver/log.c:134-154 | the bytes of a record are the header with offsets 40 and 41 + path length and the content size, then path and details with their terminators |
| LogRecord.ContentRoundTrip | native/jni/interface.cpp:370-373 | splitting the content by string length gives back path and details, a missing one as empty |
| LogRecord.OffsetsAgree | driver/log.c:138-154 | the stored offsets and size point at the same two strings |
| LogRecord.RecordSize | driver/log.c:549-573 | a record with a details buffer has at most RECORD_MAX_SIZE bytes; any record does if and only if its path has at most 982 characters |
| LogRecord.DetailsAreWholeIff | driver/log.c:549-573 | all parameters are kept if and only if their join and the path together have less than 967 characters |
| LogRecord.FullestRecord | driver/log.c:558-558 | details that fill their buffer make a record of exactly 1008 bytes, 1007 without a path |
| LogRecord.LogItemToStorage | driver/log.c:104-178 | writes exactly the serialised record, whole or not at all |
| LogRecord.EndLogSystemCall | driver/log.c:538-642 | hands on the bounded join, or no details when there is no room or no memory, and writes the record with the result |
| LogPipeline.ReadHeader | native/jni/interface.cpp:290-331 | one round: nothing yet, a failure, or the decoded header |
| LogPipeline.ReadContent | native/jni/interface.cpp:337-386 | the two strings of a complete content, else failure |
| LogPipeline.Monitor.EndCall | driver/log.c:538-642 | with memory for the record it is one producer step of the run system, whose details are the bounded join; without, nothing happens |
| LogPipeline.Monitor.Turn | native/jni/main.cpp:40-57 | is one reader step of the run system |
| LogPipeline.Monitor.ForeignRead | driver/interface.c:174-269 | a read by a process that is not the owner is one foreign step of the run system |
| LogPipeline.StepKeepsFramingIff | native/jni/main.cpp:40-57 | a step keeps the ring equal to the bytes of the records not yet decoded (less a header already read) if and only if it is neither a departure between a header and its content nor a foreign read that takes bytes; the reader's loop ends only for lack of memory |
| LogPipeline.RunFramedIff | native/jni/main.cpp:40-57 | a run is framed all along if and only if it has no such step |
| LogPipeline.ReaderDecodesAccepted | native/jni/interface.cpp:290-386 | for every orderly interleaving, also when records wrap or are dropped, the decoded records are a prefix of the accepted ones and no short read happens |
| LogPipeline.ReaderCatchesUp | native/jni/main.cpp:40-57 | two reads per pending record deliver everything accepted and empty the ring |
| LogPipeline.ProduceIsAcceptedIff | driver/interface.c:94-129 | a record is accepted if and only if a reader has the device open and the unread bytes and the record stay below the size of the ring; otherwise nothing changes |
| LogPipeline.SmallRunAcceptsAll | driver/interface.c:94-129 | while the device is open and the ring is larger than all records together every record is accepted, in order |
| LogPipeline.BoundaryAfterRelease | driver/interface.c:281-301 | the next reader starts on a record boundary if and only if the last one did not leave between header and content, by itself or because it had stopped there |
| LogPipeline.LeavingEarlyStopsTheNext | native/jni/interface.cpp:290-331 | after such a departure the next reader stops at its first header with memory available: a concrete run for every header and ring size |
| LogPipeline.ForeignReadStopsReader | driver/interface.c:174-189 | after a foreign read of three bytes the reader stops at its first header: a concrete run for every header and ring size |
| SysReader.Reader.Turn | native/jni/main.cpp:40-92 | printed are, in order, exactly the decoded records whose log passes the rules, with pid, operation, api and result rendered from the decoded header; nothing printed is taken back |
| SysReader.OperationToString | native/jni/interface.cpp:150-212 | names exactly the 19 known operations |
| SysReader.ApiToString | native/jni/interface.cpp:214-288 | names exactly the first 23 calls, so not `sys_kill` |
| SysReader.FileCallsAreNamed | native/jni/interface.cpp:150-236 | the names shown for the numbers that the hooks of open, creat, read, write, close and ioctl log |
| SysReader.ProcessCallsAreNamed | native/jni/interface.cpp:197-285 | the names shown for the numbers that the hooks of exit, fork, vfork, clone and execve log |
| SysReader.TreeOperationsAreNamed | native/jni/interface.cpp:170-192 | the names of the operations on names, directories and links |
| SysReader.TreeCallsAreNamed | native/jni/interface.cpp:237-265 | the names of the calls on names, directories and links |
| SysReader.OthersAreNamed | native/jni/interface.cpp:150-263 | the names of the remaining numbers |
| SysReader.ColumnsShow | native/jni/filter.cpp:240-291 | what a rule about each column looks at, in terms of the decoded header, path and details |
| SysReader.PidRuleIsExact | native/jni/filter.cpp:247-251 | a rule that the pid is a number matches exactly the records with that pid |
| SysReader.ResultRuleIsExact | native/jni/filter.cpp:277-281 | a rule that the result is a number, as hexadecimal text, matches exactly the records with that result, negative ones included |
| EndToEnd.DecodedAreProduced | native/jni/interface.cpp:290-386 | in every orderly run the decoded entries are records of calls, each of another call, in the order of the calls |
| EndToEnd.DecodedPathIsKernelPath | driver/log.c:363-377 | the decoded record of a read or close carries its caller's header fields, its result and its details, and, if the caller's calls were safe for the number, the kernel's path of the open descriptor at the time of the call or no path, and that path whenever memory and lookup allowed |
| EndToEnd.ReadIsShown | driver/sys_calls/read.c:34-40 | the row of a read whose hook had memory and whose path has at most 900 characters: pid, names, path, result and details in full |
| EndToEnd.CloseIsShown | driver/sys_calls/close.c:35-39 | the same for a close |
| EndToEnd.LogRead | driver/sys_calls/read.c:23-52 | the whole hook is one read step of the hooks' system and the producer step of its record, with time, pid, operation 2, call 3, the result, the path looked up and as many of its parameters as fit, or no producer step exactly if the caller is the reader or memory is short |
| EndToEnd.LogClose | driver/sys_calls/close.c:23-61 | the same for close, with operation 4 and call 5, for every answer of the kernel |
| SysReader.SelectedIffMarked | native/jni/main.cpp:60-86 | a record is among the selected ones if and only if it is marked as passing |
| Filter.OccursSomewhere | native/jni/filter.cpp:42-54 | the containment test holds if and only if the value occurs at some position |
| Filter.FilterOneLog | native/jni/filter.cpp:236-294 | undecided if and only if the rule does not match, otherwise the rule's action |
| Filter.IsComparesAll | native/jni/filter.cpp:28-40 | is and is not compare the whole text, whatever the case of the letters A to Z |
| Filter.EndsCompareAtEnds | native/jni/filter.cpp:56-69 | begins with and ends with compare the first and the last characters, whatever their case |
| Filter.ContainsLooksEverywhere | native/jni/filter.cpp:42-54 | contains and excludes look at every position, the case included |
| Filter.LowerCharIff | native/jni/filter.cpp:28-69 | two characters count as equal exactly if they are, or are the same letter of A to Z in another case |
| Filter.FilterList.AddFilter | native/jni/filter.cpp:186-224 | appends the rule to the linked list, or changes nothing without memory |
| Filter.FilterList.FilterLog | native/jni/filter.cpp:297-326 | the action of the first matching rule, else print exactly if the list is empty or its last rule excludes |
| Filter.VerdictIsUnique | native/jni/filter.cpp:297-326 | that meaning gives every log one verdict |
| Filter.UniformLists | native/jni/filter.cpp:297-326 | only-exclude lists print exactly the logs that no rule matches, non-empty only-include lists exactly those that some rule matches |
| Filter.AddedRule | native/jni/filter.cpp:200-208 | a rule added at the end never changes the verdict of a log that an earlier rule matched; for the others it decides alone |
| TraceDog.RunKeepsInv | driver/trace_dog.c:76-105 | over every run of any number of tasks, signals included, the reference count is the sum of the table and the number of tasks inside plus the skipped leaves less the skipped enters, and so is each entry for its own call; nobody is inside exactly when the count equals that difference |
| TraceDog.NobodyInsideAfterUnload | driver/main.c:184-194 | if nothing was skipped, the count is the number of tasks inside, and once all calls are restored and the wait has stopped, nobody is inside a hook and nobody enters, ever after |
| TraceDog.UnloadIsSafeIff | driver/trace_dog.c:39-67 | when the wait stops, by seeing zero or by a signal, nobody is inside a hook ever after if and only if the count equalled the skipped leaves less the skipped enters |
| TraceDog.SkippedEnterUnloadsEarly | driver/trace_dog.c:76-81 | after a skipped enter the wait can see zero and stop with a task inside: a concrete run |
| TraceDog.SkippedLeaveNeverReachesZero | driver/trace_dog.c:92-97 | after a skipped leave the wait goes on although nobody is inside: a concrete run |
| TraceDog.Dog.TraceDogEnter | driver/trace_dog.c:76-89 | is one enter step of the run system, with its semaphore or without |
| TraceDog.Dog.TraceDogLeave | driver/trace_dog.c:92-105 | is one leave step of the run system, with its semaphore or without |
| TraceDog.Dog.PollForUnload | driver/trace_dog.c:39-67 | stops waiting exactly when the count is zero or a signal interrupts it |

## Left out

- CycleBuffer.Device.InterfaceRead: the semaphore is taken; the interrupted path, which releases a semaphore it does not hold, is not modelled, because mutual exclusion is not kept after it.
- TraceDog.Dog.TraceDogEnter: the call of a hook and its enter count as one step.
- TraceDog.Dog.PollForUnload: one round of the wait; that the waiting ends, and the two fixed sleeps, are not modelled.
- LogPipeline.ReadHeader: one round of its loop; the sleeping and retrying is the repetition of that step. User copies of the reader are complete.
- LogPipeline.ReaderDecodesAccepted: for rings of up to 2^31 bytes, the range of the size fields, and orderly runs; `LeavingEarlyStopsTheNext` and `ForeignReadStopsReader` show that its conclusion fails without either condition.
- Hooks.Machine.FakeSysOpen: the kernel's result is an error code or a descriptor that was free. `fake_sys_creat`, `fake_sys_write` and `fake_sys_ioctl` repeat the modelled hooks with other log names; the fork and exit hooks only run `notify_enter`.
- Hooks.Machine.FakeSysClose: a kernel that answers 0 has removed a descriptor that was open.
- Coherence.NextKeepsCoherentIff: each process is single-threaded and shares its descriptors with no other; a pid is reused by a process with a later start time.
- EndToEnd.LogClose: the hook forgets the descriptor after writing the log, the model before; the record depends on neither. The hooks of open and exec log a name taken from the caller, which is not modelled.
- ProcessTable.Table.NotifyEnter: memory release is not modelled; the code releases the cache of a reused pid twice (`driver/process.c:416-418`, `:346-349`). Arguments and environment are not kept.
- FdCache.FdArea.DeleteFromRecord: the deleted record is not released, as in the code. Among several hot records with one fd the contract allows any; which one the bisection meets first is not fixed.
- FdCacheService.ServeAll: about an fd that is inserted while it has a record the answers are those of the abstract run, not of a map.
- FdCacheRuns.FastRefinesSlow: for fds with at most one record. Several records arise for error codes, and for descriptors whose earlier record an unsafe call left behind.
- LogDetails.LogItem.AddStringParam: strings copied from user space are shorter than the 256-byte holder and terminated.
- Filter.FilterList.AddFilter: starts from the parsed rule; the regular expression and the keyword tables are not modelled.
- SysReader.Reader.Turn: the text of the time in the local zone and the process name, which the reader asks its surroundings for, come in as parameters, once per record.
- Concurrency of hooks inside one ring or table operation: the semaphores make each of them one step.
- Finding and patching the system call table, device registration, module start and stop: not modelled.
- The per-thread table of log items: a hook's own item is a local object here.
