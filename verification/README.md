# Verified models of the Dune applications

A Dafny model of the parts of the repository that carry its guarantees, with proofs over every input, every run and
every interleaving:

- `wedge`: sthreads. Writable memory is checkpointed once; each sthread gets a private copy of it behind its own page
  table; on exit only dirty pages are restored, so that a dead sthread can be reused instead of rebuilt.
- `sandbox`: the address-space manager, the initial stack of the sandboxed program, the thread-creation handshake, the
  memory-reference checks and the `#!` line.
- `bench`: the posted-interrupt ping-pong.
- `ufirewall`: the rule list.

Two layers recur. Transition systems on values (`SthreadModel`, `AddressSpace`, `Handshake`, `PostedIpi`) state what a
step may do and carry the theorems about whole runs. Classes and methods with the loops of the code
(`SthreadRuntime.Runtime`, `Umm.Manager`, `StackBuilder`, `Tags.Store`, `Grants.Sc`, `Firewall.Table`, `Shebang`) are
proved to perform exactly those steps, or to meet a specification function about which the theorems are proved.

`dafny verify dfyconfig.toml` checks everything.

| files | content |
|---|---|
| `Common`, `PageTables` | bytes, pages, page-table entries, segments, offsets of writable pages |
| `SthreadModel`, `SthreadSteps`, `SthreadInvariant`, `SthreadRuns`, `SthreadLifeCycle`, `SthreadExample` | the sthread transition system, its frames, its invariant, its run theorems, and two runs in which they need their conditions |
| `SthreadRuntime`, `SthreadCheckpoint`, `SthreadSyscall`, `Grants`, `Tags` | the sthread code: walks, create, exit, join, what a started thread sees of the checkpoint, system-call filter, grant tables, `smalloc` |
| `AddressSpace`, `UmmCalls`, `Umm`, `Extents` | the sandbox window and its events, the events of each call and of sequences of calls, the calls themselves, the reference checks |
| `StackImage`, `StackBuilder` | an independent reader of the initial stack, and the code that writes it |
| `Handshake`, `PostedIpi`, `Firewall`, `Shebang` | one protocol or program each |

## Assumptions

- A page walk visits every page of an inclusive range once, in ascending order. Segments are disjoint and page
  aligned; `mmap` returns unused pages; distinct pages of the master's table have distinct nonzero frames.
- The set of pages of the master's table, their frames and their permissions never change; a page that `mmap` returns
  was there as a free page. The master itself stores only to its segments and to tags.
- The words of a thread's `sc_mem` name whole tags; `Grants.TableGrantsOk` shows it for tables built from mapped tags.
- The master's table maps read-only segments without `PTE_W`. A user store sets `PTE_D` in the thread's entry.
- A buffer the kernel fills for an sthread is written, byte by byte, through the rewritten pointer, which sets no `PTE_D`.
  Nothing is assumed of where the buffer lies or of its dirty bits.
- Calls into the kernel and libdune succeed or fail as an `Oracle` says, and a failed one has no effect. The kernel refuses
  empty and unaligned ranges and ranges beyond the user address space; `shmat` with SHM_RND rounds an unaligned address
  down to its page instead. Unmapping zero bytes touches nothing. Each
  memory call of the sandbox is atomic.
- `Handshake.HandshakeSafe` excludes spurious wakeups of `pthread_cond_wait`; `Handshake.ReturnDecided` includes them.
  Interrupts are delivered exactly once.

## Properties the code does not have

Each with an input and with its exact condition.

- Sthreads are not isolated when a buffer runs from one region into the next. `has_mem_perm` accepts any range of writable
  pages, but the rewritten pointer goes on through the frames after the first page's:
  `SthreadExample.CrossingFillReachesMaster` is a run in which a `read` into the end of a stack changes the master's
  globals. A fill changes exactly the page it leads to (`SthreadSteps.FillChange`) and keeps the isolation of stores if
  and only if that page is the thread's own or a tag granted for writing, or the byte does not change
  (`SthreadSteps.FillFrameIff`); the isolation theorems over runs ask this of the fills in the stretch, and buffers in one
  region have it (`SthreadRuns.RegionFillsStay`).
- A reused sthread does not always start like a new one. A `read` into a page the thread has not touched goes through the
  rewritten pointer, leaves the page clean, and `recycle` skips it: `SthreadExample.ReusedThreadSeesOldByte` is such a
  run. For buffers in one region a fill is harmless if and only if the page is dirty already, belongs to a tag, or does not
  change (`SthreadInvariant.RegionFillTracked`, `SthreadInvariant.UntrackedFillSurvivesExit`); for all buffers the
  condition is that of `SthreadInvariant.FillKeepsInvIff`. Over whole runs a reused thread starts clean if and only if at
  its last exit every page that was not pristine was dirty (`SthreadLifeCycle.ReusePristineIff`).
- A stack whose rounding leaves fewer than 8 bytes does not decode unless the first strings are empty: the last zero word
  lies one word past the reservation. `StackBuilder.FifteenCharactersDoNotDecode` is an input,
  `StackBuilder.BuiltStackDecodes` the condition.
- `smalloc` with a size that wraps succeeds and later blocks overlap: `Tags.WrappingSizeOverlaps`, and the conditions in
  `Tags.NullIffFullIffNoWrap` and `Tags.Store.Smalloc`.
- The address test of the firewall is membership in a network only for rules with address 0:
  `Firewall.TestAcceptsOtherNetwork` and `Firewall.MatchesExactlyNetworkIffZero`.
- The range test accepts short ranges that wrap around the top of the address space: `Extents.LastByteAccepted` and
  `Extents.AcceptedOutside`.
- A mapping that pgroot refuses is unmapped again even where it replaced pages that were present
  (`UmmCalls.RefusedRemappingDisagrees`), and a segment that `shmat` attaches at a rounded address is taken for a failure
  and left attached (`UmmCalls.RoundedAttachmentDisagrees`). Then, and only then, a call makes the process's mappings and
  pgroot disagree: `UmmCalls.CallAgreement`, and over sequences of calls `UmmCalls.CallsDifferIff`.
- A `#!` line that ends right after the interpreter starts the script without an argument if and only if it ends with a
  newline (`Shebang.OnlyInterpIffNewline`). With NUL, as at the end of a file, what follows is passed as one more argument
  (`Shebang.NulLineHasFiveStrings`), and when no other NUL follows its string leaves the page
  (`Shebang.ArgumentPointerPastPage`; the exact condition is in `Shebang.BuildScript`).
- The wait in `dune_pthread_create` is not in a loop: `Handshake.SpuriousWakeupReturnsZero`. The call returns the child's
  id if and only if the child had published it when the parent read it (`Handshake.ReturnDecided`).

## Model

| member | source | states |
|---|---|---|
| `SthreadRuns.RecycleAgreesWithFresh` | wedge/src/sthread.c:663-685 | in every run whose fills recycle can notice, wherever they go, the dead thread a create reuses has a private copy equal to the checkpoint, a zero stack, and page by page the accesses a newly built thread with the same grants would have; neither can touch the other's stack |
| `SthreadLifeCycle.ReusePristineIff` | wedge/src/sthread.c:92-154 | in every run without that condition: a thread that exited and was not started again, while the fills of others stay in their memory, has the contents of a new one exactly when at its exit every page that was not pristine was dirty |
| `SthreadExample.ReusedThreadSeesOldByte` | wedge/src/sthread.c:341-348 | a run of fill, exit, join and create in which the reused thread starts with the filled byte |
| `SthreadExample.CrossingFillReachesMaster` | wedge/src/sthread.c:243-284 | a run of one fill that the permission check accepts and that changes the master's globals |
| `SthreadRuns.ReuseStartsLikeFresh` | wedge/src/sthread.c:663-685 | one step, with no condition: the reused thread has the grants and accesses of a new one, and its contents exactly when the dead thread was pristine |
| `SthreadRuns.RunSound` | wedge/src/sthread.c:602-713 | in every world of every run memory, page tables and grants are in order |
| `SthreadRuns.RunInv` | wedge/src/sthread.c:92-154 | in every world of a run whose fills recycle can notice, a page that is not dirty is pristine and an exited thread has only pristine pages |
| `SthreadRuns.RunIsolation` | wedge/src/sthread.c:541-661 | over any run, with every fill the check accepts: a page that no step touches holds the same at its end as at its beginning |
| `SthreadRuns.PrivateMemoryIsolated` | wedge/src/sthread.c:541-600 | over any stretch of a run in which fills stay and a thread neither stores, nor has a buffer filled, nor exits, its private copy and stack do not change |
| `SthreadRuns.RegionFillsStay` | wedge/src/sthread.c:341-348 | fills whose buffers lie in one region stay, over whole runs |
| `SthreadRuns.MasterMemoryIsolated` | wedge/src/sthread.c:541-600 | while fills stay, the master's globals change only by the master's own stores |
| `SthreadRuns.CheckpointIsolated` | wedge/src/sthread.c:465-482 | while fills stay, nothing changes the checkpoint |
| `SthreadSteps.StepFrame` | wedge/src/sthread.c:541-713 | each step changes only the pages it touches: a store those of the thread and its writable tags, a fill the page its rewritten pointer leads to, whoever owns it |
| `SthreadSteps.FillChange` | wedge/src/sthread.c:341-348 | a fill changes exactly the page whose frame the rewritten pointer leads to |
| `SthreadSteps.FillFrameIff` | wedge/src/sthread.c:341-348 | a fill leaves alone everything a store would leave alone exactly when what it changes is the thread's own or a tag granted for writing |
| `SthreadSteps.RegionFillStays` | wedge/src/sthread.c:341-348 | so for buffers in one region |
| `SthreadSteps.StoreFrame` | wedge/src/sthread.c:553-600 | a user store changes no page outside the thread's private copy, its stack and its writable tags |
| `SthreadSteps.ReachOfThread` | wedge/src/sthread.c:541-600 | every user-writable entry of a thread's table leads to a page of its own or of a tag granted with PROT_WRITE |
| `SthreadSteps.ReadsOfThread` | wedge/src/sthread.c:553-600 | every entry open to user code leads to a page of the thread's own, of a read-only segment or of a granted tag |
| `SthreadRuns.RunReads` | wedge/src/sthread.c:553-600 | so in every world of every run, for every thread |
| `SthreadSteps.TagOpen` | wedge/src/sthread.c:581-597 | every page of a granted tag is open to the thread through the master's frame, and writable exactly when the master's is and the first word that names it has the write bit |
| `SthreadSteps.ReadOnlyOpen` | wedge/src/sthread.c:563-573 | every page of a read-only segment is open to every thread through the master's frame, and not writable |
| `SthreadRuns.RunTagOpen` | wedge/src/sthread.c:581-597 | in every run after tag_new: the thread can read each page of a tag it was granted, and write it exactly when its first word for the page has the write bit |
| `SthreadRuns.RunReadOnlyOpen` | wedge/src/sthread.c:563-573 | in every world of every run every thread can read the read-only segments the master can read |
| `SthreadRuns.StackAccess` | wedge/src/sthread.c:576-579 | all ten pages of its stack are open to a thread for writing |
| `SthreadInvariant.StepKeepsSound` | wedge/src/sthread.c:541-713 | every create, exit, join, store, fill, master store and tag allocation keeps memory, page tables and grants in order |
| `SthreadInvariant.StepKeepsInv` | wedge/src/sthread.c:92-154 | every step keeps all threads restorable, a fill if recycle will notice it |
| `SthreadInvariant.FillKeepsInvIff` | wedge/src/sthread.c:341-348 | a fill, wherever it goes, keeps all threads restorable exactly when every thread whose private page, stack page or checkpoint it changes is running and has that page dirty |
| `SthreadInvariant.RegionFillTracked` | wedge/src/sthread.c:341-348 | for a buffer in one region that is: the page is dirty already, is a tag's, or does not change |
| `SthreadInvariant.ExitPristineIff` | wedge/src/sthread.c:134-154 | the recycling walks leave a thread pristine exactly when every page that was not pristine was dirty |
| `SthreadInvariant.UntrackedFillSurvivesExit` | wedge/src/sthread.c:92-154 | after a fill in one region and an exit the thread is pristine exactly under that condition |
| `SthreadInvariant.RecycledRestorable` | wedge/src/sthread.c:92-132 | after the recycling walks every private page equals the checkpoint and every stack page is zero, though only dirty pages were restored |
| `SthreadInvariant.DirtiedRestorable` | wedge/src/sthread.c:92-112 | after a store every page that is not pristine is marked dirty |
| `SthreadInvariant.CreateKeepsInv` | wedge/src/sthread.c:602-661 | building a thread keeps the invariant of all threads |
| `SthreadLifeCycle.StepLifeCycle` | wedge/src/sthread.c:514-539 | a thread goes only from running to zombie by its own exit, from zombie to dead by a join on it, from dead to running by a create with equal sc_mem; ids never leave the list and regions never move |
| `SthreadLifeCycle.JoinReturnsExitValue` | wedge/src/sthread.c:687-713 | a thread that was running and is now a zombie exited in between with exactly the value a join returns, and has been a zombie since |
| `SthreadLifeCycle.JoinCompletesIff` | wedge/src/sthread.c:701-702 | the wait of a join, while only sthreads move, ends exactly when the thread was a zombie already or was running and has exited; on a dead thread it never ends |
| `PageTables.OffsetIsPrefixSum` | wedge/src/sthread.c:465-482 | page j of writable segment i is at the sum of the earlier writable lengths plus j, below the checkpoint's size |
| `PageTables.OffsetsTile` | wedge/src/sthread.c:436-439 | every offset below the size belongs to a page of a writable segment |
| `PageTables.OffsetsInjective` | wedge/src/sthread.c:465-482 | distinct offsets hold distinct pages |
| `PageTables.WritableIffInWritableSegment` | wedge/src/sthread.c:553-575 | the checkpointed pages are exactly those whose first containing segment is writable |
| `SthreadRuntime.WalkProtect` | wedge/src/sthread.c:553-600 | the loops compute the entry the opening and closing theorems above speak of: denied by default, read-only segments and the stack open, otherwise the first matching grant decides |
| `SthreadRuntime.HasMemPerm` | wedge/src/sthread.c:243-284 | accepts exactly when every page of the inclusive range is user writable, and leaves the first frame for the pointer rewriting |
| `SthreadSyscall.MemPermBytes` | wedge/src/sthread.c:274-284 | byte by byte: accepted exactly when every byte of the buffer and the one after it lie in present, writable, user pages |
| `SthreadRuntime.Runtime.CheckpointDo` | wedge/src/sthread.c:465-482 | afterwards page k of the checkpoint is the k-th writable page and nothing else changed |
| `SthreadCheckpoint.StartedThreadSeesCheckpoint` | wedge/src/sthread.c:465-482 | from the checkpoint on, the thread a create starts, new or reused, finds at every page of a writable segment what the master held there at the checkpoint, in memory it may write |
| `SthreadRuntime.Runtime.Recycle` | wedge/src/sthread.c:134-154 | exactly the dirty private pages return to the checkpoint and the dirty stack pages to zero |
| `SthreadRuntime.RecycledBits` | wedge/src/sthread.c:92-132 | the dirty bits of pages in writable segments are cleared, those of all other pages and everything else in the entries kept |
| `SthreadRuntime.Runtime.RecycleSegments` | wedge/src/sthread.c:92-112 | the running offset of the walk restores every page from its own place in the checkpoint |
| `SthreadRuntime.Runtime.RecycleStack` | wedge/src/sthread.c:114-132 | the stack walk completes the restored contents of the whole memory |
| `SthreadRuntime.Runtime.ExitThread` | wedge/src/sthread.c:351-357 | the exit call performs the exit step |
| `SthreadRuntime.Runtime.JoinThread` | wedge/src/sthread.c:687-713 | performs the join step; returns the saved value exactly for a known zombie |
| `SthreadRuntime.Runtime.BuildTable` | wedge/src/sthread.c:541-600 | clone, protect and remap leave the k-th writable page on the k-th private page and every other page as protected |
| `SthreadRuntime.Runtime.CreateNew` | wedge/src/sthread.c:602-661 | performs the step that builds a thread: zero stack, copied checkpoint, built table, next id, head of the list |
| `SthreadRuntime.Runtime.CreateThread` | wedge/src/sthread.c:663-685 | performs the create step and returns the id of the thread it started: running, with the given grants, and either the next new id or that of a thread that was dead with equal sc_mem |
| `SthreadSyscall.Screen` | wedge/src/sthread.c:286-348 | by system-call number, both ways: read, write and open pass exactly with a writable buffer, and what is passed on means the same as the thread's pointer in one region; read needs the read bit of the first grant for the descriptor, write and close the write bit; every other allowed call passes unchanged; when it aborts and what it leaves in st_walk |
| `SthreadSyscall.FinishOpen` | wedge/src/sthread.c:363-370 | a descriptor open returned is granted for both directions, and an earlier grant for it still decides |
| `SthreadSteps.RewriteMeansIff` | wedge/src/sthread.c:341-348 | the rewritten pointer plus i is the address the thread's table gives exactly when that page is as many frames after the first as it is pages after it |
| `SthreadSteps.RewritePreservesMeaning` | wedge/src/sthread.c:341-348 | so in a range of consecutive frames, for every byte |
| `SthreadSyscall.SegmentBufferMeaning` | wedge/src/sthread.c:341-348 | so for an accepted buffer in one writable segment, through the thread's own copy |
| `SthreadSyscall.RegionBufferMeaning` | wedge/src/sthread.c:341-348 | and for an accepted buffer in a stack or tag region |
| `Grants.Sc.constructor` | wedge/src/sthread.c:500-503 | an empty table grants nothing |
| `Grants.Sc.FdAdd` | wedge/src/sthread.c:795-810 | for every int: appends one grant to the abstract list, or aborts exactly on a full table, wide protection bits or a descriptor of more than 23 bits |
| `Grants.ShiftKept` | wedge/src/sthread.c:805-809 | the shifted word gives back the descriptor exactly for 23 bits |
| `Grants.Sc.HasFdPerm` | wedge/src/sthread.c:156-174 | the first grant for the descriptor decides, its lowest bit for reading and its second for writing |
| `Grants.FirstGrantIs` | wedge/src/sthread.c:156-174 | the first grant is the one at the least index with the descriptor |
| `Grants.FdDirections` | wedge/src/sthread.c:156-174 | a descriptor granted for reading, writing or both can be used in exactly those directions |
| `Grants.Sc.SysAdd` | wedge/src/sthread.c:812-820 | adds one number to the set of marked ones and no other, or aborts exactly outside the bitmap |
| `Grants.Sc.CanDoSys` | wedge/src/sthread.c:176-197 | allowed exactly for marked numbers and the defaults; outside the bitmap it aborts |
| `Grants.Sc.MemAdd` | wedge/src/sthread.c:765-793 | appends the word of the first tag with the id to the abstract list, or aborts exactly on an unknown tag, a full table, a misaligned region or wide protection bits |
| `Grants.AddedFromTag` | wedge/src/sthread.c:788-792 | the word added for a mapped tag covers exactly pages of that tag |
| `Grants.TagNewMaps` | wedge/src/sthread.c:715-737 | tag_new maps all pages of its region as that tag's |
| `Grants.TableGrantsOk` | wedge/src/sthread.c:581-597 | a table of such words grants whole tags and nothing else, which is what creation and isolation ask of it |
| `Grants.FdRoundTrip` | wedge/src/sthread.c:795-810 | a descriptor word decodes to its descriptor and protection |
| `Grants.MemWordDecodes` | wedge/src/sthread.c:581-597 | a memory word decodes to its region and write bit as walk_protect reads them |
| `Grants.MarkedAfter` | wedge/src/sthread.c:812-820 | setting one bit marks that number and keeps all others |
| `Grants.GrantForLive` | wedge/src/sthread.c:581-597 | the zero-terminated table and the abstract list give the same grant for every page |
| `Grants.FirstTagDecides` | wedge/src/sthread.c:581-597 | a later grant changes the answer only for pages no earlier grant covers |
| `Grants.FirstFdDecides` | wedge/src/sthread.c:156-174 | a later grant changes the answer only for descriptors without one |
| `Tags.Store.TagNew` | wedge/src/sthread.c:715-737 | a new id and region; all blocks stay disjoint and inside their tags |
| `Tags.Store.Smalloc` | wedge/src/sthread.c:739-763 | for sizes that do not wrap: NULL exactly for an unknown tag or too little space, otherwise a block inside the tag's region and disjoint from all earlier ones; a wrapping size succeeds, and exactly then that soundness is lost |
| `Tags.UnsoundAfter` | wedge/src/sthread.c:752-762 | after a wrapped size the new block leaves its tag's region |
| `Tags.NullIffFullIffNoWrap` | wedge/src/sthread.c:752-762 | NULL means too little space exactly for the sizes whose sum with the offset does not wrap |
| `Tags.WrappingSizeOverlaps` | wedge/src/sthread.c:752-762 | a wrapping size makes a later block overlap an earlier one |
| `Tags.SoundAfter` | wedge/src/sthread.c:739-763 | cutting a block off keeps all blocks housed and pairwise disjoint |
| `AddressSpace.ArenasNeverOverlap` | sandbox/src/umm.c:28-36 | in every run the counters are page multiples that fit the window together, so the heap ends below every mapping and all lies in the window |
| `AddressSpace.RoundedFits` | sandbox/src/umm.c:28-31 | the strict check on the unrounded length gives the bound on the rounded one |
| `UmmCalls.BigRoundUpIs` | sandbox/src/umm.c:214-220 | the length of the second munmap is the next multiple of two megabytes |
| `AddressSpace.HandedOutOnce` | sandbox/src/umm.c:169-204 | ranges handed out at any two moments of a run are disjoint, whatever was unmapped in between |
| `AddressSpace.GuardUnmapped` | sandbox/src/umm.c:336-357 | a stack's lowest page is mapped only where an explicit address asked for it |
| `AddressSpace.StackGuardHolds` | sandbox/include/sandbox.h:32-50 | without DUNE it stays unmapped in every run |
| `AddressSpace.StepKeepsValid` | sandbox/src/umm.c:102-145 | every event keeps layout, order of blocks, and an account of every mapped window page |
| `AddressSpace.DiffersIffCaused` | sandbox/src/umm.c:52-100 | for every sequence of events, every page and either way round: process mappings and pgroot differ there exactly when an undone or stray mapping caused it and nothing has mended it since |
| `AddressSpace.StepAgreement` | sandbox/src/umm.c:52-100 | one event keeps the agreement exactly unless it undoes a mapping over present pages or strays over absent ones |
| `AddressSpace.GapIsFree` | sandbox/src/umm.c:28-36 | between the heap and the last mapping only explicit addresses ever mapped anything |
| `UmmCalls.CallRuns` | sandbox/src/umm.c:102-357 | the events of every call can happen, in the state the call is made in |
| `UmmCalls.CallAgreement` | sandbox/src/umm.c:52-100 | a call keeps process mappings and pgroot in agreement exactly unless the kernel mapped its range over present pages and pgroot then refused it, or shmat attached at a rounded address |
| `UmmCalls.ChosenHitsOnlyPlaced` | sandbox/src/umm.c:102-357 | a range the manager chose hits a present page only where an explicit address put it |
| `UmmCalls.ChosenNeverBreaks` | sandbox/src/umm.c:102-357 | so without DUNE a brk, NULL-hint mapping or stack, refused or not, never breaks the agreement |
| `UmmCalls.CallsRun` | sandbox/src/umm.c:102-357 | every sequence of calls from the start is a run, and leaves layout, blocks and account in order |
| `UmmCalls.CallsAgree` | sandbox/src/umm.c:102-357 | without DUNE the two maps agree after every sequence of calls in which no refused mapping at an explicit address replaced present pages and no shmat strayed |
| `UmmCalls.CallsDifferIff` | sandbox/src/umm.c:102-357 | after any sequence of calls, exactly which pages differ, either way round |
| `UmmCalls.RefusedRemappingDisagrees` | sandbox/src/umm.c:52-77 | two mmap calls after which the maps disagree |
| `UmmCalls.RoundedAttachmentDisagrees` | sandbox/src/umm.c:274-276 | a shmat call after which they disagree the other way round |
| `Umm.Manager.constructor` | sandbox/src/umm.c:28-36 | starts with nothing of the window in use |
| `Umm.Manager.MapFixed` | sandbox/src/umm.c:52-100 | the range ends up in both maps, or pgroot is unchanged and the mapping undone |
| `Umm.Manager.Brk` | sandbox/src/umm.c:102-145 | when each result is returned; the heap ends less than a page after the address asked for; exactly the pages between the old and the new end are entered into or removed from both maps; exactly the events of the call, and agreement exactly unless the growth clobbered pages |
| `Umm.Manager.Mmap` | sandbox/src/umm.c:169-204 | succeeds exactly when allowed and granted, and then exactly the pages of the range are entered into both maps; a NULL hint ends less than a page below the last mapping and moves it; each error; the events of the call on every path; agreement exactly unless it clobbered pages |
| `Umm.Manager.Munmap` | sandbox/src/umm.c:206-227 | removes exactly the pages of the range, or on the retry of the range rounded up to big pages, from both maps and returns 0; exactly for safe ranges; agreement is kept |
| `Umm.Manager.Shmat` | sandbox/src/umm.c:246-290 | as for mmap, with the size of the segment; with SHM_RND and an unaligned address exactly the pages from the rounded address on are added to the process alone although the call fails; agreement exactly unless it clobbered or strayed |
| `Umm.Manager.Mremap` | sandbox/src/umm.c:292-334 | exactly the pages of the old range are removed from both maps, then those of the new one entered; where a chosen one lies; each error; every refusal leaves both maps alone; agreement is kept |
| `Umm.Manager.AllocStack` | sandbox/src/umm.c:336-357 | eight megabytes below the last mapping are reserved and all but the lowest page entered into both maps; exactly the events of the call; agreement exactly unless it clobbered pages |
| `UmmCalls.ChosenTarget` | sandbox/src/umm.c:180-186 | when the kernel accepts a range, the 64-bit sums behind the chosen address did not wrap |
| `Extents.SafeIffInside` | sandbox/include/sandbox.h:32-50 | for ranges that do not wrap, the test accepts exactly the program's own ranges |
| `Extents.AcceptedOutside` | sandbox/include/sandbox.h:32-50 | a range that is not the program's is accepted exactly when it wraps and is short |
| `Extents.LastByteAccepted` | sandbox/include/sandbox.h:32-50 | such a range |
| `Extents.CheckIovec` | sandbox/src/trap.c:243-256 | accepts exactly when the count is not negative and vector and buffers are safe |
| `Extents.NegativeCount` | sandbox/src/trap.c:243-246 | a negative count is refused at the vector |
| `Extents.AcceptedVectorInside` | sandbox/src/trap.c:243-256 | every byte of an accepted buffer that does not wrap is the program's own |
| `StackBuilder.SetupArguments` | sandbox/src/main.c:201-262 | the memory written is the image of count, path and arguments, environment and auxiliary vector, strings ending at sp and nothing outside written; with 8 bytes of padding the program reads it back; it aborts exactly when a copied auxiliary type is missing |
| `StackBuilder.BuiltStackReads` | sandbox/src/main.c:212-261 | what the program then reads, item by item: the count, each argument and environment string, and each of the 13 entries |
| `StackBuilder.BuiltStackDecodes` | sandbox/src/main.c:212-261 | reading the stack from the returned address gives back argc + 1, path and argv, envv and 13 entries exactly when the strings under the bytes missing from 8 of padding are empty; for a nonempty path exactly when rounding left 8 bytes |
| `StackBuilder.FifteenCharactersDoNotDecode` | sandbox/src/main.c:212-261 | a stack that does not decode |
| `StackBuilder.CountArgs` | sandbox/src/main.c:116-131 | the number of strings and the span from the first byte of the first to the NUL of the last |
| `StackBuilder.ContiguousMeasured` | sandbox/src/main.c:116-131 | for contiguous strings the span is their total size |
| `StackBuilder.FindAuxEntry` | sandbox/src/main.c:133-142 | the value of the first entry of the type, if there is one before the terminator |
| `StackBuilder.AuxEntries` | sandbox/src/main.c:144-199 | the 13 entries by position and number: program headers, their number, entry point, 0 for secure, program headers again for random, and eight copied from the first entry of their type; none exactly when one of the eight is missing |
| `StackBuilder.AuxIsLiteral` | sandbox/src/main.c:155-199 | the table of types and values is that list |
| `StackBuilder.PushStrings` | sandbox/src/main.c:241-256 | the loop writes the pointers and the strings they point to, consecutively |
| `StackBuilder.PushAux` | sandbox/src/main.c:155-199 | the entries and the terminating word, and nothing past its eight bytes |
| `StackImage.LayoutArithmetic` | sandbox/src/main.c:212-233 | for all sizes: aligned, pointers and entries end at or below the strings, the last word is clear of them exactly with 8 bytes of padding and never passes sp |
| `StackImage.DecodeOk` | sandbox/src/main.c:228-261 | memory holding the vector and the strings decodes to the image |
| `StackImage.DecodeHas` | sandbox/src/main.c:228-261 | memory that holds the vector and decodes to the image holds its strings |
| `StackImage.DecodesIffHarmless` | sandbox/src/main.c:198 | the stack decodes to the image exactly when the strings are zero wherever the terminating word covers them |
| `StackImage.ZeroBytesIffEmpty` | sandbox/src/main.c:198 | the strings start with n zero bytes exactly when the first n of them are empty |
| `StackImage.ClobberedPath` | sandbox/src/main.c:198 | when the terminating word reaches the strings the program reads an empty name |
| `Handshake.HandshakeSafe` | sandbox/src/trap.c:143-214 | in every interleaving: the child's id is returned, the child's reads come before the parent's return, no lost wakeup |
| `Handshake.HandshakeCompletes` | sandbox/src/trap.c:143-214 | every run is finite and can only end with creation failed, or the id returned and the child started |
| `Handshake.NeverStuck` | sandbox/src/trap.c:188-214 | a state that is not final always has a next step |
| `Handshake.SpuriousWakeupReturnsZero` | sandbox/src/trap.c:203-206 | a run in which a spurious wakeup makes the call return 0 |
| `Handshake.ReturnDecided` | sandbox/src/trap.c:203-214 | in every run, spurious wakeups included: the child's id is returned exactly when the child had published it by then and 0 otherwise; when the id is returned the child's reads of the frame came before |
| `Handshake.ReadsDoneYetZero` | sandbox/src/trap.c:203-214 | a run that returns 0 although the reads were done |
| `Handshake.ReturnedValue` | sandbox/src/trap.c:203-214 | a result of 0 occurs only after a spurious wakeup |
| `PostedIpi.ProtocolSafe` | bench/src/posted_ipi.c:17-99 | in every interleaving: sent equals handled plus under way, at most one open round, nothing sent before registration, done only after all were handled |
| `PostedIpi.NeverStuck` | bench/src/posted_ipi.c:80-99 | no wakeup is lost and someone can always move until both are done |
| `PostedIpi.RunsAreFinite` | bench/src/posted_ipi.c:88-99 | no run is longer than five steps a round and seven more |
| `Firewall.Table.Load` | ufirewall/src/firewall.c:54-151 | the list is the reverse of the file up to the first unknown line |
| `Firewall.RuleOfLine` | ufirewall/src/firewall.c:54-151 | a rule line before which no line is unknown is the rule at the position that counts the rule lines before it |
| `Firewall.LineOfRule` | ufirewall/src/firewall.c:54-151 | and every rule is such a line |
| `Firewall.Table.CheckConnect` | ufirewall/src/firewall.c:170-195 | the last matching connect rule in file order decides, the default is no |
| `Firewall.ConnectDecision` | ufirewall/src/firewall.c:170-195 | spelled out by kind, port and address bits |
| `Firewall.BindDecision` | ufirewall/src/firewall.c:153-168 | the bind decision, spelled out by kind and port |
| `Firewall.Table.CheckBind` | ufirewall/src/firewall.c:153-168 | allowed exactly when some bind rule matches |
| `Firewall.BindRulesIrrelevant` | ufirewall/src/firewall.c:170-195 | removing all bind rules changes no connect decision |
| `Firewall.BindOrderIrrelevant` | ufirewall/src/firewall.c:153-168 | the order of rules does not matter for bind |
| `Firewall.MatchesIffNoDifferingBit` | ufirewall/src/firewall.c:170-195 | an address matches exactly when it has no bit in which rule address and mask differ |
| `Firewall.MatchesExactlyNetworkIffZero` | ufirewall/src/firewall.c:170-195 | every address of the network matches, and only those exactly when the rule's address is 0 |
| `Firewall.TestAcceptsOtherNetwork` | ufirewall/src/firewall.c:170-195 | a rule and an address outside its network that matches |
| `Shebang.GetLen` | sandbox/src/exec.c:18-27 | the number of arguments before the NULL |
| `Shebang.ScanLoop` | sandbox/src/exec.c:106-116 | the first position where the scan stops |
| `Shebang.BuildElf` | sandbox/src/exec.c:51-64 | the array denotes sandbox, loader and all of argv |
| `Shebang.BuildScript` | sandbox/src/exec.c:85-150 | refused exactly without an interpreter; accesses the byte after the page exactly with an interpreter but no line end; otherwise page and array denote the tokenised line followed by all of argv, and the strings end in the page exactly unless a NUL ends the interpreter and no other follows |
| `Shebang.LineEnds` | sandbox/src/exec.c:106-136 | the scans stay in the page exactly when it has a line end |
| `Shebang.NoArgumentLine` | sandbox/src/exec.c:122-143 | a line with only an interpreter denotes sandbox, loader, interpreter, script |
| `Shebang.ArgumentLine` | sandbox/src/exec.c:122-148 | a line with a rest, ended by newline or NUL, denotes sandbox, loader, interpreter, the rest as one argument, script |
| `Shebang.OnlyInterpIffNewline` | sandbox/src/exec.c:122-148 | a line without a rest denotes sandbox, loader, interpreter, script exactly when it ends with a newline, and five strings with NUL |
| `Shebang.NulLineHasFiveStrings` | sandbox/src/exec.c:121-134 | such a line |
| `Shebang.ArgumentPointerPastPage` | sandbox/src/exec.c:130-134 | a page for which the argument pointer is the end of the page |

## Left out

- StackBuilder.SetupArguments: argument arrays whose span is not the size of their strings; auxiliary entries are looked up before the stack is written, not between the writes; path and argv go through one loop.
- Grants.Sc.CanDoSys: the numbers 128 to 135 and -7 to -1, for which the code reads beside the bitmap or shifts by a negative amount, which C does not define.
- Grants.Sc.SysAdd: the same numbers.
- SthreadSyscall.Screen: the same numbers.
- Grants.Sc.FdAdd: scans past a full table, modelled as the abort they end in.
- SthreadRuntime.Runtime.JoinThread: one look at the thread; the wait is SthreadLifeCycle.JoinCompletesIff, in which the other sthreads move.
- SthreadRuntime.Runtime.CreateNew: the mapping calls; the regions they return are parameters, and ids stay within an int.
- Shebang.BuildScript: the test of the two first bytes; what lies in memory after the page, so that a string leaving it is known only up to its end.
- Umm.Manager.Mremap: a call after which pgroot refuses the new range, which ends the process.
- `schedule` inside a system call and resuming the outer thread, page-table roots and TLB flushes.
- The compile-time offset of booting Dune guests in the walk that checks permissions.
- `umm_map_big`, `umm_mprotect` and page permissions after mremap.
- The switch over system-call numbers in `syscall_check_params`: one comparison per call.
- Scanning text: firewall rule lines and `/proc/self/maps` are given parsed.
- Lifetime of the condition variable after the parent destroyed it.
- ELF loading, the web server, benchmarks, system-call and test programs, and the two other interrupt benchmarks.
