# Pintos user programs on demand-paged virtual memory, in Dafny

This project models the core of a Pintos kernel (x86-64) that runs user
programs on top of demand-paged virtual memory. It covers two source files.

From `vm/vm.c`:

- the supplemental page table (SPT): find, insert, remove, copy for fork, and kill;
- creating a lazily loaded page (`vm_alloc_page_with_initializer`);
- the global frame table with its second-chance ("clock") victim choice, eviction and `vm_get_frame`;
- claiming a page (`vm_claim_page` / `vm_do_claim_page`);
- the page-fault handler with stack growth;
- `page_get_type` and the hash order `vm_less_func`.

From `userprog/process.c`:

- splitting the command line with `strtok_r`;
- reading and checking the ELF-64 header and program headers;
- `validate_segment` and the read/zero split of a `PT_LOAD` segment;
- `load_segment`, which registers one lazy page per page of a segment;
- `lazy_load_segment`, which fills a page on its first fault;
- `setup_stack`;
- `argument_stack`, which lays out argc/argv on the new stack;
- `get_child_process`.

Modules:

- `Mem` (mem.dfy): address-space constants and page arithmetic. `Bytes` holds little-endian encoding and `Wrappers` holds `Option`.
- `Clock` (clock.dfy): the victim choice of the second-chance scan, as a function of the frames' "hot" bits.
- `Vm` (vm.dfy): pages, frames and the class `VmManager`, whose fields are the state vm.c keeps:
  - every thread's SPT, as one map keyed by (thread, page address);
  - every thread's page table;
  - the frame table and the clock cursor;
  - the user stack bottom;
  - a `halted` flag for `PANIC` and failed `ASSERT`s.
- `Elf` (elf.dfy): the on-disk ELF-64 header and program header, their decoding, and the acceptance checks of `load`.
- `Loader` (loader.dfy): `load_segment`, `lazy_load_segment`, `setup_stack` and `load` over a `VmManager`.
- `CmdLine` (cmdline.dfy): the words of a command line and the tokenising loop of `process_exec`.
- `ArgStack` (argstack.dfy): `argument_stack` over an array of user-stack bytes and a `Cpu.IntrFrame` (cpu.dfy).
- `Children` (children.dfy): `get_child_process`.

Nondeterministic parts of the kernel are havocked results of small methods whose contracts say only what vm.c relies on:

- `swap_in` and `swap_out`;
- `pml4_set_page` failing for lack of memory;
- `palloc_get_page` running out of user frames, modelled as a frame-table `capacity`;
- `pml4_create`.

## Model

| member | source | states |
|---|---|---|
| Vm.TypeSurvivesInitialization | vm/vm.c:42-53 | page_get_type of an uninitialised page is its pending type, and initialising the page does not change its type |
| Vm.VmLessKeysByAddress | vm/vm.c:429-437 | vm_less_func is a strict order (irreflexive, transitive), and two pages are equivalent under it exactly when they have the same address, so the SPT holds at most one page per address |
| Vm.SptFind | vm/vm.c:105-130 | a found page belongs to the thread and sits at the address rounded down to its page; nothing is found exactly when the thread has no page at that rounded address |
| Vm.FindNormalises | vm/vm.c:121-123 | every address inside a page finds the same entry as the page's first address |
| Vm.VmManager.SptInsertPage | vm/vm.c:133-140 | insertion succeeds exactly when the thread has no page at that address, and then adds exactly that entry; a failed insert leaves the table unchanged |
| Vm.VmManager.SptRemovePage | vm/vm.c:142-154 | the entry is gone and find no longer returns it, the current thread's page-table mapping at its address is cleared, and the frame it held no longer points back at it |
| Vm.VmManager.AllocPageWithInitializer | vm/vm.c:65-101 | succeeds exactly when the address is free in the current thread's SPT, and then adds one uninitialised page with the requested type, permission and loader, without a frame |
| Clock.FirstCold | vm/vm.c:167-182 | one pass of the scan: the first frame in the range that is free or not recently accessed, with every frame before it accessed; none only when every frame in the range was accessed |
| Clock.FirstColdAt | vm/vm.c:167-182 | a cold frame with only accessed frames before it is exactly where the scan stops |
| Clock.VictimIsFirstCold | vm/vm.c:157-204 | when some frame is cold, the victim is cold, and the frames the scan passes over (from the cursor to the end, then wrapping from the head) are exactly those scanned before the victim, all of them accessed |
| Clock.VictimFallback | vm/vm.c:199-203 | when every frame is accessed, both passes clear every accessed bit and the victim is the head of the frame table |
| Clock.SweepOnlyClears | vm/vm.c:177-178 | the scan only clears accessed bits, and clears exactly those of the frames it passes over |
| Clock.NextScanAfterFallback | vm/vm.c:199-203 | after a full sweep that found nothing, the next scan takes the first frame it looks at |
| Vm.VmManager.ScanStretch | vm/vm.c:167-182 | one scanning loop stops at the first cold frame of its stretch, leaves the cursor there (or at the stretch's end), and clears the accessed bit of every page it passed |
| Vm.ScanOnlyClears | vm/vm.c:177-178 | the scan adds no mapping, retargets none and sets no accessed bit |
| Vm.VmManager.GetVictim | vm/vm.c:157-204 | the victim is the clock victim of the frames' accessed bits from the saved cursor, the cursor is left on it, and the page table is the scan's result |
| Vm.VmManager.WrapScan | vm/vm.c:184-203 | when the first scan found no cold frame, the second scan from the head up to the saved cursor and the fallback to the head give the clock victim, leave the cursor on it and clear the accessed bits of the whole sweep |
| Vm.VmManager.EvictFrame | vm/vm.c:208-218 | evicts the clock victim; a held page is swapped out and unmapped, and a failed swap-out stops the kernel |
| Vm.VmManager.GetFrame | vm/vm.c:224-251 | a fresh frame is appended while user memory lasts, otherwise the clock victim is evicted and unlinked from its page; either way the frame returned holds no page, no other frame changes, pages at most lose their frames, and no accessed bit is set |
| Vm.UnlinkKeepsLinks | vm/vm.c:234-237 | unlinking an evicted frame from its page keeps the page/frame pairing one-to-one |
| Vm.VmManager.Unlink | vm/vm.c:234-237 | the victim frame and its page forget each other and nothing else changes |
| Vm.LinkedIsOneToOne | vm/vm.c:336-338 | with pages and frames pointing at each other, no frame is held by two pages and no page by two frames |
| Vm.LinkOne | vm/vm.c:336-338 | linking a frameless page with a free frame keeps the pairing one-to-one |
| Vm.VmManager.LinkFrame | vm/vm.c:336-338 | frame and page point at each other and nothing else changes |
| Vm.VmManager.SwapIn | vm/vm.c:349 | swap_in fills the page's frame and initialises the page; no other frame changes |
| Vm.VmManager.Attach | vm/vm.c:336-349 | links page and frame, maps the page with its permission and the accessed bit set, and on success initialises it; a failed mapping leaves the page linked but uninitialised |
| Vm.VmManager.DoClaimPage | vm/vm.c:328-350 | the page gets a new frame while memory lasts or the clock victim otherwise; other pages at most lose their frames and no other frame changes; on success the page is mapped writable as it is, accessed, and initialised |
| Vm.SurvivorsKeepContents | vm/vm.c:328-350 | claiming one page keeps every other resident page in its frame with the same bytes |
| Vm.VmManager.ClaimPage | vm/vm.c:315-324 | fails changing nothing when the current thread has no page at the address; otherwise it is a claim of that page |
| Vm.VmManager.StackGrowth | vm/vm.c:254-261 | succeeds exactly when the thread has no page at the address, and then adds a writable anonymous page there and lowers the stack bottom by one page |
| Vm.ClassifyFault | vm/vm.c:270-300 | kernel addresses and protection faults are rejected; a page already in the SPT is claimed; a missing page below USER_STACK, within 1 MiB of it and at or above the stack pointer (the frame's for user faults, the saved one for kernel faults) minus 8, computed on a 64-bit pointer, grows the stack by one page below the stack bottom; anything else is rejected |
| Vm.GrowthFloor | vm/vm.c:283-288 | the lower end of the growth window is rsp - 8 when rsp is at least 8, and wraps to the top of the 64-bit address space otherwise |
| Vm.LowRspNeverGrows | vm/vm.c:283-288 | with a stack pointer below 8 the wrapped bound excludes every user address, so no fault grows the stack |
| Vm.VmManager.GrowAndClaim | vm/vm.c:288-302 | stack growth at the page below the stack bottom, then a claim of that page; growth fails changing nothing when a page is already there; otherwise the new writable anonymous page gets a fresh frame while the pool lasts and the clock victim after, no other frame changes, other pages at most lose their frames, and on success it is initialised and mapped writable and accessed to that frame |
| Vm.VmManager.TryHandleFault | vm/vm.c:270-303 | a rejected fault fails and changes nothing; a fault on a known page is a claim of it; a stack fault grows the stack and claims the new page, with the frame, mapping and untouched other frames that GrowAndClaim states |
| Vm.VmManager.constructor | vm/vm.c:24-37 | the frame table starts empty with the cursor at its head, and the page tables start empty |
| Vm.VmManager.SptKill | vm/vm.c:400-414 | the thread's pages leave the table, every other entry is unchanged, and frames that held the thread's pages are freed |
| Vm.KillKeepsLinks | vm/vm.c:400-414 | killing one thread's table keeps the page/frame pairing one-to-one |
| Vm.VmManager.CopyFrameData | vm/vm.c:394 | the child's frame receives the parent frame's PGSIZE bytes |
| Vm.VmManager.CopyOne | vm/vm.c:375-395 | one round of the copy: the child page at the same address is added with the parent's permission; on success it is a copy of the parent (same state) and, for a resident parent, holds the same bytes; other pages at most lose their frames and keep their bytes |
| Vm.VmManager.CopyResident | vm/vm.c:390-395 | for a resident parent page: the child page is added with the parent's permission and, when claimed, holds the parent frame's bytes; a parent page without a frame at the memcpy (swapped out before the round, or evicted by the claim) stops the kernel |
| Vm.ResidentRound | vm/vm.c:390-395 | allocate, claim and memcpy together make one copy round of a resident parent page |
| Vm.AddThenDrop | vm/vm.c:391-392 | allocating a child page and claiming it adds that one key and at most takes frames from the others |
| Vm.CopyStep | vm/vm.c:373-396 | a successful round extends the copied part of the child's table by one address |
| Vm.VmManager.CopyRound | vm/vm.c:373-396 | one iteration of the copy loop either extends the copied part of the child's table by the page's address, or returns early with the child holding only parent addresses and every other page unchanged but for lost frames |
| Vm.CopyAbort | vm/vm.c:388-392 | an early return leaves the child with a subset of the parent's addresses and other threads' pages unchanged but for lost frames |
| Vm.CopyComplete | vm/vm.c:373-397 | when every parent address is done, the child has exactly the parent's addresses, each a copy of the parent page, with equal bytes for resident pages |
| Vm.BytesKeptTrans | vm/vm.c:373-396 | bytes kept by each of two rounds that only take frames away are kept across both |
| Vm.VmManager.SptCopy | vm/vm.c:367-398 | fork's copy: other threads' pages stay (at most losing frames), the child only gets addresses the parent has, and on success every parent page has a copy in the child with the same permission and state, and equal bytes where the parent was resident; unless the kernel stopped, every page that is resident before and after holds the same bytes |
| Elf.DecodeEhdr | userprog/process.c:392-408 | reading the 64-byte executable header gives fields within their C widths |
| Elf.DecodeEncodeEhdr | userprog/process.c:392-408 | encoding a header and reading it back gives the same header |
| Elf.EncodeDecodeEhdr | userprog/process.c:392-408 | reading 64 bytes and encoding the header gives the same bytes |
| Elf.DecodePhdr | userprog/process.c:410-420 | reading the 56-byte program header gives fields within their C widths |
| Elf.DecodeEncodePhdr | userprog/process.c:410-420 | encoding a program header and reading it back gives the same header |
| Elf.EncodeDecodePhdr | userprog/process.c:410-420 | reading 56 bytes and encoding the program header gives the same bytes |
| Elf.ReadHeader | userprog/process.c:466-473 | a header is accepted only when the file holds 64 bytes and their decoding passes every check |
| Elf.ReadHeaderBytes | userprog/process.c:468-469 | the header is accepted exactly when its raw bytes carry the ELF magic, class, data and version, type 2, machine 0x3E, version 1, a program header size of 56 and at most 1024 program headers |
| Elf.DecodedChecks | userprog/process.c:468-469 | each decoded check is the same as a check on the raw bytes at its offset |
| Elf.Dispatch | userprog/process.c:488-530 | PT_DYNAMIC, PT_INTERP and PT_SHLIB abort the load, PT_LOAD loads a segment, and every other type is ignored |
| Elf.ValidateSegmentFits | userprog/process.c:553-594 | validate_segment accepts exactly when the file offset and address share their page offset, the offset is within the file, the memory size is non-zero and at least the file size, and the region starts at or above the second page and ends below the kernel without wrapping |
| Elf.SegmentSplitCovers | userprog/process.c:504-522 | the bytes read plus the bytes zeroed are whole pages that cover the segment from its page start to its end, less than a page beyond it; the read part ends exactly at the end of the file image |
| Elf.AsWrittenWholePages | userprog/process.c:508-522 | the 32-bit counts still add up to whole pages |
| Elf.AsWrittenAgrees | userprog/process.c:508-522 | for segments below 4 GiB the 32-bit counts equal the exact ones |
| Elf.TruncatedSegment | userprog/process.c:508-514 | a 4 GiB segment passes validate_segment, yet its 32-bit read and zero counts are both 0 |
| Loader.PageRead | userprog/process.c:849-851 | a page reads at most PGSIZE bytes |
| Loader.SegmentPlan | userprog/process.c:843-873 | load_segment makes one lazy-load descriptor per page of the segment; each offset is the off_t `ofs` advanced by the bytes read before it, wrapping past 2^31 - 1 |
| Loader.PlanOffset | userprog/process.c:859-872 | while the segment's file part ends below 2^31, page k's descriptor reads from the segment's offset plus the bytes of the pages before it |
| Loader.OffsetWraps | userprog/process.c:834-872 | a segment whose file part reaches 2 GiB (offset 0, 0x8000_1000 bytes read) gets offset -2^31 in the descriptor of its page 0x80000 |
| Loader.SegmentImage | userprog/process.c:816-823 | the segment's bytes are the bytes read plus the zeros |
| Loader.PlanLoadsSegment | userprog/process.c:833-875 | for a file part that lies within a file an off_t can address, lazy-loading page k of the plan yields exactly the k-th page of the segment's bytes: the file's bytes from the offset, then zeros |
| Loader.Available | userprog/process.c:803 | file_read returns fewer bytes than asked only at the end of the file |
| Loader.LazyImage | userprog/process.c:786-814 | a successful lazy load yields a whole page |
| Loader.LazyLoadSegment | userprog/process.c:786-814 | succeeds exactly when the file holds all the bytes the page reads, and then the page is those bytes followed by zeros; on a short read the page holds the bytes read and is otherwise untouched |
| Loader.NextKeyUnregistered | userprog/process.c:859-863 | registering pages before page k does not touch page k's address |
| Loader.RegisterNext | userprog/process.c:859-870 | registering page k extends the registered prefix of the segment by one page |
| Loader.RegisteredIs | userprog/process.c:843-873 | after m pages, each address in the first m pages holds its planned lazy page and every other entry is as before |
| Loader.FirstTaken | userprog/process.c:859-863 | the first page of the segment whose address is already in the SPT, with every earlier one free |
| Loader.FirstTakenAt | userprog/process.c:859-863 | a taken page with free pages before it is the first taken page |
| Loader.ProgressStep | userprog/process.c:849-872 | one iteration's page_read_bytes, off_t offset and remaining counts are those of page k of the plan |
| Loader.OffTAdd | userprog/process.c:872 | adding to an off_t that has already wrapped gives the same off_t as adding first and wrapping once |
| Loader.OffTAligned | userprog/process.c:834-839 | passing the page-aligned file_page as the off_t `ofs` keeps it page aligned, as load_segment's ASSERT demands |
| Loader.ProgressDone | userprog/process.c:843 | the loop ends after exactly one iteration per page |
| Loader.RegisterPage | userprog/process.c:854-863 | one vm_alloc_page_with_initializer call: registers the planned page when its address is free; otherwise this page is the first taken one and the table is unchanged |
| Loader.Advance | userprog/process.c:866-872 | the counts drop by the page's read and zero bytes, upage moves one page on and the off_t ofs advances by the bytes read, keeping the loop's progress |
| Loader.LoadPage | userprog/process.c:845-872 | one iteration registers page k with the plan's descriptor and advances to page k + 1, or finds that page k is the first taken one and leaves the table alone |
| Loader.LoadSegment | userprog/process.c:833-875 | succeeds exactly when no page of the segment is already mapped; the table gains the planned pages, with their wrapping off_t offsets, up to the first taken one and nothing else |
| Loader.RegisteredAll | userprog/process.c:843-875 | a completed segment maps every page of its plan and keeps every page that has no frame |
| Loader.PlanMappedKept | userprog/process.c:523-525 | loading later segments keeps an earlier segment's pages in place |
| Loader.ClaimKeeps | userprog/process.c:887-888 | allocating and claiming the stack page keeps every earlier lazy page |
| Loader.SetupStack | userprog/process.c:878-895 | on success the page just below USER_STACK is new, writable, anonymous, resident and mapped, rsp is USER_STACK and the stack bottom is that page; an address already taken fails without touching the table; a failure leaves rsp and the stack bottom alone; no other mapping is added or retargeted |
| Loader.ToOffT | userprog/process.c:476 | a value stored into the int32 off_t: unchanged when it fits, otherwise wrapped modulo 2^32 into the off_t range |
| Loader.PhdrAt | userprog/process.c:481-486 | a program header is read only from a non-negative offset with 56 bytes of the file behind it |
| Loader.ReadPhdr | userprog/process.c:481-486 | the range check, file_seek and file_read of one program header give exactly the header PhdrAt reads, or none |
| Loader.ProgramStep | userprog/process.c:477-531 | an accepted program header extends the accepted and mapped prefix of the program header table by one |
| Loader.ProgramMappedKept | userprog/process.c:533-535 | setting up the stack keeps every loaded segment's pages |
| Loader.LoadPhdr | userprog/process.c:479-530 | one iteration of load's loop: on success the prefix is accepted and mapped one header further; an ignored header succeeds without touching the table, an aborting one fails |
| Loader.LoadSegmentOf | userprog/process.c:501-526 | a loaded PT_LOAD segment maps all its pages at its page-aligned address with its permission |
| Loader.SegmentRegistered | userprog/process.c:523-525 | a successful load_segment of a PT_LOAD segment maps every page of the segment's plan and keeps every page without a frame |
| Loader.SplitAligned | userprog/process.c:504-522 | the file page, the memory page and the read plus zero byte count handed to load_segment are page multiples, as its ASSERTs demand |
| Loader.Load | userprog/process.c:436-549 | success means the file has an accepted header, every program header is accepted and every PT_LOAD segment is mapped lazily page by page, rip is the entry point, rsp is USER_STACK and the stack page is resident, and the thread's new page table from pml4_create maps only the stack page; failure leaves rip alone |
| Vm.VmManager.FreshPml4 | userprog/process.c:446-449 | the thread's page table is a new, empty one; other threads' mappings are unchanged |
| CmdLine.WordsAreWords | userprog/process.c:238-246 | each word is a non-empty run without spaces, and the words of a C string hold no NUL |
| CmdLine.WordsUnwords | userprog/process.c:238-246 | splitting words joined by single spaces gives the words back |
| CmdLine.StrTok | userprog/process.c:238-243 | strtok_r returns a token only when one is left, and resumes strictly after it |
| CmdLine.StrTokWords | userprog/process.c:238-243 | strtok_r's token is the first word after its position, and it resumes where the remaining words start |
| CmdLine.NextWord | userprog/process.c:241-245 | resuming where words i.. remain, strtok_r returns word i and resumes where words i+1.. remain, or returns nothing exactly when every word is taken |
| CmdLine.StoreWords | userprog/process.c:238-246 | the loop stores word j of the line in values[j] for each word it takes, keeps save_ptr where the untaken words start, and stops on a NULL or at the last of the 128 entries |
| CmdLine.StoresAsWritten | userprog/process.c:238-246 | the loop as written: each strtok_r result from save_ptr on is stored in turn, up to and including the first NULL, with no bound on the index |
| CmdLine.StoresAsWrittenWords | userprog/process.c:238-246 | the loop as written stores the words of the line in order and then one NULL |
| CmdLine.ValuesOverflow | userprog/process.c:235-246 | a line of 128 or more words makes the loop store past the 128 entries of values |
| CmdLine.Tokenize | userprog/process.c:234-246 | values holds the first words of the line in order, at most 127 of them, followed by a NULL; the count is the number of words stored; for a line of fewer than 128 words the entries are exactly what the loop as written stores |
| CmdLine.FitsAsWritten | userprog/process.c:238-246 | entries holding every word of the line and then NULL are exactly the stores of the loop as written |
| ArgStack.ArgFrame | userprog/process.c:597-633 | the frame is 8 bytes of return address, 8 per argument plus 8 for the NULL, the padding, and the words with their NULs |
| ArgStack.ArgFrameSpan | userprog/process.c:597-628 | the frame runs exactly from the final rsp up to the initial one |
| ArgStack.ArgRspAligned | userprog/process.c:609-628 | the final stack pointer is a multiple of 8 |
| ArgStack.ArgvSlot | userprog/process.c:615-624 | slot i of the argv array holds pointer i as 8 little-endian bytes |
| ArgStack.ArgvNull | userprog/process.c:619-620 | the slot after the last pointer is NULL |
| ArgStack.ArgvEnds | userprog/process.c:619-628 | argv[argc] is NULL and the fake return address is zero |
| ArgStack.ArgvPointsAtWord | userprog/process.c:601-624 | argv[i], read at rsi + 8*i, is the address where word i was copied |
| ArgStack.WordInFrame | userprog/process.c:601-607 | at the address argv[i] points to, the stack holds word i followed by a NUL |
| ArgStack.Pointer | userprog/process.c:606 | value_address[i] is the address where word i was copied |
| ArgStack.Push | userprog/process.c:604-605 | lowering rsp by n and copying n bytes puts them just below the old rsp and leaves the memory below untouched |
| ArgStack.PushWords | userprog/process.c:601-607 | the first loop leaves the words, last one highest, each with its NUL, directly below the initial rsp, and records each copy's address in value_address |
| ArgStack.PushWord | userprog/process.c:602-607 | one round of the first loop puts word i and its NUL directly below the words after it, at the address value_address[i] records |
| ArgStack.PadTo8 | userprog/process.c:609-613 | the second loop pushes exactly rsp mod 8 zero bytes and stops at the multiple of 8 below |
| ArgStack.PushZero | userprog/process.c:611-612 | one round of the padding loop adds one zero byte below those already pushed |
| ArgStack.PushStrings | userprog/process.c:601-613 | the words followed by the padding, ending at an 8-byte boundary |
| ArgStack.PushArgv | userprog/process.c:615-625 | the third loop pushes a NULL, then the recorded addresses from the last word to the first, so argv[0] ends up lowest |
| ArgStack.PushArgvSlot | userprog/process.c:616-624 | one round of the third loop puts argv[i] (the NULL when i is argc) as 8 little-endian bytes directly below the later slots |
| ArgStack.PushPointers | userprog/process.c:615-628 | the argv array and then the zero fake return address |
| ArgStack.BuildFrame | userprog/process.c:601-628 | the bytes from the final rsp up to the initial one are exactly the frame, and memory below is untouched |
| ArgStack.ArgumentStack | userprog/process.c:597-633 | rsp ends at the aligned frame's bottom, rdi is argc, rsi is rsp + 8 (the argv array), the stack holds the frame, and nothing below it changes |
| Children.GetChildProcess | userprog/process.c:635-652 | finds a child exactly when some child has that thread id, and then returns the first such child in list order |

## Left out

- The hash table behind the SPT (`vm_hash_func`, buckets, `hash_find`) is a map keyed by page address. `supplemental_page_table_init` is the empty map and `vm_init`'s list and cursor setup is the constructor.
- The `VM_MARKER_STACK` bit: `VM_TYPE` masks it off, so pages carry only anonymous or file-backed types.
- `vm_handle_wp` has an empty body and no caller in the modelled code.
- `vm_dealloc_page`/`destroy` (vm/uninit.c, vm/anon.c and vm/file.c are not part of this model): freeing a page is modelled as returning its frame to the frame table.
- `frame_lock`, and all concurrency: every operation is atomic.
- `swap_in`, `swap_out`, `pml4_set_page` failures, `palloc_get_page` exhaustion and `pml4_create` are nondeterministic. Their byte-level behaviour lives in code that is not part of this model.
- `spt_remove_page` returns `true` from a `void` function; the model has no result there.
- The non-VM variants of `load_segment`, `setup_stack` and `install_page` (`#ifndef VM`) are not modelled.
- `load`'s other side effects are not modelled:
  - `process_activate`;
  - `filesys_open`, taken as an `Option` of the file's bytes;
  - `file_deny_write` and `t->running`;
  - the `printf` messages.
- The `lazy_load_info` descriptor of `load_segment` is a `LoadInfo` value. `lazy_load_segment` reads its fields under the names of a different struct (`container`), which is not part of this model: the model reads the descriptor `load_segment` filled.
- Loader.LazyLoadSegment: requires a non-negative offset. A descriptor whose off_t offset wrapped negative (a segment whose file part reaches past 2 GiB) is passed to `file_seek`, and filesys/file.c is not part of this model.
- `lazy_load_segment`'s `palloc_free_page` of the frame on a short read is not modelled: the frame stays in the frame table.
- `off_t` is taken to be a 32-bit signed integer (filesys/off_t.h is not part of this model).
- Loader.Load: requires the executable to be shorter than 2^31 bytes, the largest length an `off_t` holds.
- Loader.Load: loads with the corrected segment split (see Findings); the as-written split is modelled separately.
- CmdLine.Tokenize: is the corrected loop, which stops at 127 words; the as-written stores are `CmdLine.StoresAsWritten`.
- `process_exec` writes NULs into the command line in place; the model works on the line's bytes and the words it yields.
- ArgStack.ArgumentStack: requires the whole frame to fit in the user memory it is given (`base <= ArgRsp`); the source writes below the stack page without a check, which would fault.
- ArgStack.ArgumentStack: requires at most 128 words, the size of `value_address`.
- ArgStack.ArgumentStack: keeps rsp in a local during the pushes and stores it into the frame at the end; the C code updates `_if->rsp` at every push, with the same final value.
- ArgStack.ArgumentStack: does not take pointer arithmetic on rsp modulo 2^64; the frame lies above `base >= 0`.
- Vm.VmManager.DoClaimPage: requires the page to have no frame; a second claim of a resident page would break the page/frame pairing, and only the fault path after a failed `pml4_set_page` can produce one.
- Vm.VmManager.ClaimPage: requires, like DoClaimPage, that a page found has no frame.
- Vm.VmManager.TryHandleFault: requires, like DoClaimPage, that a not-present fault on a known page finds it without a frame.
- Vm.VmManager.AllocPageWithInitializer: requires a page-aligned address, as every caller passes.
- Vm.VmManager.SptRemovePage: requires the page to be in the table.
- `get_child_process` returns the child's position in the list rather than the `struct thread`; `thread_current` is the list passed in.

## Findings

| source | as written | input that shows it | evidently intended | confidence | as-written member | corrected member |
|---|---|---|---|---|---|---|
| userprog/process.c:508-514 | `read_bytes` and `zero_bytes` are `uint32_t`, so a segment's read and zero counts are taken modulo 2^32 | a PT_LOAD header with vaddr 0x400000, offset 0 and filesz = memsz = 2^32 passes validate_segment, and both counts become 0, so no page is mapped | the counts cover the whole segment, rounded up to whole pages | not executed | Elf.TruncatedSegment | Elf.SegmentSplitCovers |
| userprog/process.c:235-246 | the tokenising loop stores `values[i]` for every word and a final NULL with no bound on `i` | a command line of 128 words, "a " repeated 128 times, stores into `values[128]`, past the end of the array | stop storing words at the end of the 128-entry array, keeping a final NULL | not executed | CmdLine.ValuesOverflow | CmdLine.Tokenize |
