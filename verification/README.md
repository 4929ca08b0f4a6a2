# A Dafny model of revhv

This project models the stateful core of the revhv hypervisor and proves properties of it that span
operations, runs and cores. Each file holds one module.

| file | what it models |
|---|---|
| `Mtrr.dfy` | the memory type of an address and of a range |
| `EptModel.dfy`, `MemoryTypeModel.dfy`, `AutoTraceModel.dfy`, `VcpuModel.dfy` | the second-level page tables of the two views as values, and what each operation, event and run of them does |
| `ViewsInStep.dfy`, `VcpuLife.dfy` | what the two views always have in common, and whole lives of a vCPU from its launch |
| `EptPages.dfy`, `VirtualCpus.dfy` | the same tables as arrays that the code changes in place, and the exit handlers, each tied to the value-level function it computes |
| `PageTables.dfy`, `PageMaps.dfy`, `GuestMemory.dfy` | the guest page walk, tables built from a page map, the copy loops on top of it, and the chunked read |
| `HostTables.dfy`, `HostMapping.dfy` | building the host page tables from the system ones |
| `TraceRings.dfy`, `RingInterleaving.dfy` | the trace ring, one call at a time and one memory access at a time |
| `CrashRendezvous.dfy`, `NmiWindow.dfy` | the crash protocol of any number of cores, and NMI queueing on one core, as state machines |
| `TransitionConfigs.dfy`, `CaptureDecode.dfy` | the capture configurations, and the agreement of capture and decode |
| `CrShadow.dfy` | CR0 and CR4 behind masks and shadows, against a reference machine |
| `LogRings.dfy`, `TraceMerge.dfy` | the log ring and the offline merge |

Where the code updates a structure in place the model does too (a class with arrays and loops), and the
method's contract equates the new state with a function of the old one; the theorems are about those
functions and hold for all inputs and all runs. Protocols between cores or between a handler and an NMI are
state machines over single shared accesses.

## What the proofs say about the code

Several expected properties hold only under a condition. For these the model keeps the code as it is and
proves the exact condition.

- Overlapping MTRRs of the same type give UC instead of that type (`SingleTypeVersusSdm`).
- After a 1 GB leaf the host mapping advances to the next multiple of 4 GB, not 1 GB, so addresses of the
  range can be left unmapped although the call succeeds (`CompleteIffNoneSkipped`, `SecondGigabyteIsSkipped`).
- The MTRR refresh types a split entry by the frame it maps; while a hook frame is swapped in this is the hook
  frame's type (`SwappedFrameIsMistyped`), which a life of three commands reaches (`MistypedPage`).
- Enabling auto-trace twice leaves the pages of the old range denied in the normal view, and outside the new range
  they fault in both views (`ComplementAfterEnable`, `StuckAfterEnable`). A second enable that fails ends the
  tracing but leaves the active view and the ring (`EnableKeepsMode`). Disabling without enabling opens the hooked
  pages (`DisableWithoutEnable`).
- The hook hypercall is accepted while tracing. A page hooked for the first time then neither enters nor leaves
  the trace, and its hook is active, so the disable gives the page full access and does not arm it again
  (`HookAddedWhileTracingIsLost`, `DisabledView`); a page hooked before and again cannot be fetched until the
  next disable or enable (`FaultWhileTracing`). The vCPU is idle afterwards iff every page hooked meanwhile had been hooked
  before (`HooksSurviveTracing`).
- Enabling resets the ring also while another core drains it. Unless that core is at rest, or at index zero with
  no copy under way, it can then deliver a stale entry, even if the ring was empty (`ResetIsCleanIff`).
- A flush whose guest write fails loses the batch it had already drained (`FlushTraceLogs`); a log flush does
  not look at the result of its guest writes (`FlushMessages`).
- A long read stores one chunk before it reads the next, and may so overwrite its own source: what the caller finds
  is exact for every content of memory iff the read is undisturbed (`ReadExactIff`, `DeliveredIff`,
  `FoundIffUndisturbed`), and two pages read to the page behind the first are not (`SecondPageIsFirst`).
- A core that has claimed the crash and takes an NMI before it has left VMX operation yields to its own claim,
  and no core ever stops the system (`CompletesIffInitiator`, `InitiatorLost`, `HijackedInitiator`).
- A configuration for address zero is accepted, changes no lookup, but is mirrored (`InsertExact`); what the
  parser needs for its choice is exactly `LayoutsAgree` (`DecodeAgreesIff`).
- The CLTS handler does not advance RIP: the instruction runs again and then does not exit (`CltsExit`); it
  keeps the fixed bits iff TS is not fixed to one (`CltsFixed`). The LMSW handler takes PE from the shadow
  (`LmswExit`).

## Assumptions

- Single memory accesses are sequentially consistent, and the NMI counter is changed by single instructions.
- Leaving VMX operation is one step. An NMI handler of the host runs to its end.
- A page is a guest-physical frame below 512 GB; every host table frame is fresh and zeroed.
- For a control-register write that does not exit, the processor faults exactly when the reference machine
  does. Sections A.7 and A.8 of the SDM: fixed bits do not conflict, PE is fixed to one and TS is not.
- A control register is written as the set of its one bits, so bitwise operations are set operations.

## Model

| member | source | states |
|---|---|---|
| Mtrr.GetMtrrMemoryTypeSingle | revhv-km/memory.cpp:459-513 | The loop over the variable ranges, with its fixed-range shortcuts, returns the type of the address as the register state defines it |
| Mtrr.RegisterCovers | revhv-km/memory.cpp:480-492 | A valid register with an aligned base and the mask of 2^k pages covers exactly the addresses from its base up to base + 2^k pages; one that is not valid covers none |
| Mtrr.OtherRegisterIgnored | revhv-km/memory.cpp:482-492 | A register that is not valid or does not cover the address can be removed without changing the type |
| Mtrr.OneRegister | revhv-km/memory.cpp:479-512 | With a single register the addresses it covers have its type and all others the default type |
| Mtrr.FixedRegion | revhv-km/memory.cpp:466-477 | Each of the 88 fixed registers gives its type to its interval of 64 KB, 16 KB or 4 KB |
| Mtrr.FixedRegionsCover | revhv-km/memory.cpp:461-479 | The fixed intervals cover the first megabyte; above it or without them the variable registers decide, and with MTRRs disabled every address is UC |
| Mtrr.AccumulateShape | revhv-km/memory.cpp:479-512 | Two or more matching types combine to WT exactly when a WT/WB pair comes first and only WB follows, and to UC otherwise |
| Mtrr.SingleTypeVersusSdm | revhv-km/memory.cpp:479-512 | Where section 13.11.4.1 of the SDM Vol. 3A defines the type, the code gives it if and only if at most one range matches, one is UC, or WT/WB comes first and WB follows; otherwise the code gives UC |
| Mtrr.EqualOverlapBecomesUncacheable | revhv-km/memory.cpp:503-508 | Two overlapping WB ranges are WB by the SDM and UC by the code |
| Mtrr.SingleTypeSamePage | revhv-km/memory.cpp:459-513 | All addresses of a 4 KB page have one type |
| Mtrr.GetMtrrRangeMemoryType | revhv-km/memory.cpp:515-547 | The page loop returns the combined type of the range and whether all its pages share one type |
| Mtrr.RangeTypeCut | revhv-km/memory.cpp:515-547 | The combined type composes over any cut of the range |
| Mtrr.RangeTypeIsMeetOfAddresses | revhv-km/memory.cpp:515-547 | The range type is the greatest lower bound of the types of all addresses of the range, at any alignment |
| Mtrr.RangeTypeExact | revhv-km/memory.cpp:515-547 | The type of a range is the type all its addresses share; or WT if they are WT and WB; or UC |
| Mtrr.RangeUniformIsAllAddresses | revhv-km/memory.cpp:515-547 | The uniform flag holds if and only if all addresses of the range have one type |
| Mtrr.PageIsUniform | revhv-km/ept.cpp:247-257 | A 4 KB range is always uniform, so the error branch of the refresh is not reached |
| EptModel.SlotInjective | revhv-km/ept.cpp:40-94 | Distinct split 2 MB entries own distinct tables: distinct split pages never share an entry |
| EptModel.SplitPreserves | revhv-km/ept.cpp:40-94 | A split leaves the translation, permissions and type of every page as they were, and every earlier table in its place |
| EptModel.GetPteEffect | revhv-km/ept.cpp:264-291 | An entry lookup, splitting or not, changes the meaning of no page, and yields an entry of the page if it succeeds |
| EptModel.AddHookEffect | revhv-km/ept.cpp:293-315 | In any state a hook that is accepted takes execution from its page and is appended as active; whether accepted or not no other page changes |
| EptModel.HookAcceptedIff | revhv-km/ept.cpp:293-315 | A hook is accepted if and only if fewer than 32 exist, its page is below 512 GB, and its 2 MB entry is split or one of 256 tables is free; it takes a table only for an unsplit entry, and without a place nothing changes |
| EptModel.WithPermEffect | revhv-km/ept.cpp:6-38 | Setting all permissions gives every page exactly that permission and keeps every translation |
| EptModel.AddHookKeepsIdle | revhv-km/ept.cpp:293-315 | Adding a hook makes its page non-executable and changes no other page; a failed one changes no page; the shadow-page property is kept |
| EptModel.TruncatedPfn | revhv-km/ept.cpp:309-311 | The 32-bit frame number kept in a hook is the page that was looked up |
| EptModel.FirstHookSameFrames | revhv-km/ept.cpp:317-327 | Which hook is found for a frame does not depend on which hooks are active |
| EptModel.DeactivateHooksEffect | revhv-km/ept.cpp:329-346 | Deactivation maps every actively hooked page to itself with full access and changes no other page |
| EptModel.RelookupSucceeds | revhv-km/ept.cpp:348-362 | The non-splitting lookup of a hooked page always succeeds, because splits are never undone |
| EptModel.ReactivateHooksLosesNone | revhv-km/ept.cpp:348-370 | After reactivation every hook is active, with the frames it had |
| EptModel.ReactivateHooksEffect | revhv-km/ept.cpp:348-370 | Reactivation arms exactly the pages of inactive hooks: original frame, no execution, other access as it was |
| EptModel.SwapHookEffect | revhv-km/vmexit.cpp:766-787 | The swap on a fault keeps the shadow-page property, permits the faulting access and touches no other page |
| EptPages.Pages.SetAllPermissions | revhv-km/ept.cpp:6-38 | The loops over the arrays set the permissions of every leaf and nothing else |
| EptPages.Pages.SplitPde | revhv-km/ept.cpp:40-94 | Splits a 2 MB leaf into the next free table, or fails without a change if it is split already or no table is left |
| EptPages.Pages.GetEptPte | revhv-km/ept.cpp:264-291 | Finds the entry of an address from its four indices. It fails above 512 GB, and below exactly where the 2 MB entry is not split and may not be split or all 256 tables are used |
| EptPages.PageOfIndices | revhv-km/ept.cpp:266-290 | The indices taken from an address are those of its page, and the first one is zero exactly below 512 GB |
| EptPages.Pages.AddHook | revhv-km/ept.cpp:293-315 | Registers a hook and clears the execute permission of its entry; the result is the condition on places, page and tables |
| EptPages.Pages.GetHookByOrigPfn | revhv-km/ept.cpp:317-327 | Finds the first hook registered for a frame, or none |
| EptPages.Pages.DeactivateAllHooks | revhv-km/ept.cpp:329-346 | The loop restores the entry of every active hook and marks it inactive |
| EptPages.Pages.ReactivateAllHooks | revhv-km/ept.cpp:348-370 | The loop looks up and arms the entry of every inactive hook |
| EptPages.Pages.SwapHookAt | revhv-km/vmexit.cpp:766-784 | Writes the swapped entry of an active hook |
| EptPages.Pages.TypeSplitTables | revhv-km/ept.cpp:237-260 | Gives every entry of the split tables the type of the frame it maps |
| EptPages.Pages.TypePde | revhv-km/ept.cpp:206-234 | Types a 2 MB leaf that is uniform or cannot be split, and splits it otherwise |
| EptPages.Pages.UpdateMemoryTypes | revhv-km/ept.cpp:195-262 | The refresh, page directory by page directory, with the split tables typed after each |
| EptPages.Pages.constructor | revhv-km/ept.cpp:96-193 | The initial tables: identity mapping, full access, every leaf typed, mixed 2 MB ranges split |
| MemoryTypeModel.RefreshPdeEffect | revhv-km/ept.cpp:206-234 | Refreshing one 2 MB entry types it or splits it and changes no translation or permission |
| MemoryTypeModel.RefreshPdeSplits | revhv-km/ept.cpp:206-234 | A 2 MB entry is split if and only if its range has more than one type and a table is free; that takes one table and no other entry changes |
| MemoryTypeModel.RefreshSplitsMixed | revhv-km/ept.cpp:195-262 | The refresh splits no entry of a uniform range, and leaves one of a mixed range whole only if all 256 tables are used |
| MemoryTypeModel.RefreshMemoryTypesEffect | revhv-km/ept.cpp:195-262 | After the refresh every 2 MB leaf and every split entry is typed, and all else is as it was |
| MemoryTypeModel.RefreshKeepsMeaning | revhv-km/ept.cpp:195-262 | The refresh keeps every translation, permission and hook; each page then has the type of the frame it is mapped to, or the combined type of its 2 MB range only if all 256 tables are used; it is its own type exactly when that frame has the same type |
| MemoryTypeModel.SwappedFrameIsMistyped | revhv-km/ept.cpp:237-260 | Outside tracing, when the hook of a page was fetched through, the refresh gives the page its own type if and only if the hook frame has that type |
| MemoryTypeModel.InitializeIsIdle | revhv-km/ept.cpp:96-193 | The initial tables map every page to itself with full access and its own type |
| MemoryTypeModel.InitializeSplitsMixed | revhv-km/ept.cpp:96-193 | The same for the initial tables |
| AutoTraceModel.EnablePageEffect | revhv-km/ept.cpp:388-413 | One page of the range loses execution in the normal view and gains it in the target view; a failed lookup in either restores full access in both |
| AutoTraceModel.EnablePagesEffect | revhv-km/ept.cpp:388-414 | The page loop does this for exactly the translated pages of the range, up to the first failure |
| AutoTraceModel.EnablePagesOkIff | revhv-km/ept.cpp:388-414 | The page loop succeeds if and only if every translated page is below 512 GB and each view has a free table for every distinct unsplit 2 MB entry of the range; it then has split exactly those |
| AutoTraceModel.TwoViewComplement | revhv-km/ept.cpp:372-417 | After a successful enable a page is executable in the normal view iff it backs no translated page of the range, and in the target view iff it does; after a failed one both views grant full access; no translation changes |
| VcpuModel.ViolationKeepsIdle | revhv-km/vmexit.cpp:755-822 | Outside tracing only hooked pages fault, and after one handled fault the access succeeds |
| VcpuModel.FatalIff | revhv-km/vmexit.cpp:763-822 | A violation is fatal if and only if it is not a fetch and the first hook of its page is not active |
| VcpuModel.ViolationWhileTracing | revhv-km/vmexit.cpp:755-822 | While tracing only fetches fault; the handler switches the view, the fetch then succeeds, and an entry is emitted exactly on the switch from the target to the normal view |
| VcpuModel.TracingStep | revhv-km/vmexit.cpp:755-822 | One event while tracing: never fatal, the view follows the range, and an entry is emitted exactly on leaving it |
| VcpuModel.EnableFromLoose | revhv-km/hypercall.cpp:157-194 | From any state in which every hook is active and unhooked pages are open, a successful enable starts tracing in the normal view; a failed one leaves every page idle, with view and ring as they were |
| VcpuModel.EnableSucceedsIff | revhv-km/hypercall.cpp:157-194 | The enable hypercall succeeds, in any state, if and only if every translated page is below 512 GB and the distinct unsplit 2 MB entries of the range number at most the free tables, in each view |
| VcpuModel.TracingRun | revhv-km/vmexit.cpp:755-822 | Over any run of fetches, data accesses and MTRR writes while tracing: no access is fatal or faults twice, the flag matches the active view, and the emitted entries are exactly the departures from the range, in order |
| VcpuModel.DisableFromTracing | revhv-km/hypercall.cpp:196-212 | Disabling returns to the normal view with every hook armed |
| VcpuModel.TraceRoundTrip | revhv-km/hypercall.cpp:157-212 | Enable, any tracing run and disable leave every page with the mapping and permissions it had before, up to memory type, and every hooked page armed |
| VcpuModel.DisableWithoutEnable | revhv-km/hypercall.cpp:196-212 | Disabling outside tracing, also with pages left open by an earlier tracing, gives every hooked page full access; the vCPU is idle then if and only if it has no hooks |
| ViewsInStep.AddHookInStep | revhv-km/hypercall.cpp:137-155 | A hook is accepted by both views or by neither: the second call cannot fail after the first |
| ViewsInStep.EnableInStep | revhv-km/hypercall.cpp:157-194 | After an enable, successful or not, both views have the same split tables and the same hooks |
| ViewsInStep.DisableInStep | revhv-km/hypercall.cpp:196-212 | The same after a disable |
| ViewsInStep.RefreshInStep | revhv-km/ept.cpp:195-262 | The same after a refresh of the memory types |
| VcpuLife.HookKeepsMode | revhv-km/hypercall.cpp:137-155 | A hook may be added in any mode and keeps the invariant of that mode |
| VcpuLife.FaultWhileTracing | revhv-km/vmexit.cpp:755-822 | While tracing, with hooks added since and ranges left over: on a page first hooked while tracing a fault swaps the frame, keeps the view and emits nothing; on any other page only fetches fault and switch the view, and the retry succeeds if and only if the page is not stuck, that is, hooked both before and since the enable or left over from an older range |
| VcpuLife.EnableKeepsMode | revhv-km/hypercall.cpp:157-194 | An enable in any mode: if it succeeds it starts tracing in the normal view with all hooks inactive; if it fails, also while tracing, both views are opened and all hooks armed, but the active view and the ring stay as they were |
| VcpuLife.ComplementAfterEnable | revhv-km/hypercall.cpp:157-182 | After an enable in any mode the views are complementary at a page if and only if it lies in the new range, or is not denied from an older one, or was hooked while that was traced |
| VcpuLife.StuckAfterEnable | revhv-km/vmexit.cpp:789-797 | A fetch right after an enable faults in both views if and only if the page is left over from an older range and outside the new one |
| VcpuLife.DisabledView | revhv-km/ept.cpp:348-370 | After a disable in any mode a page is idle if and only if it does not have all its hooks active; those that do were first hooked while tracing, or are hooked at a disable outside tracing, and get full access |
| VcpuLife.HooksSurviveTracing | revhv-km/hypercall.cpp:137-212 | Enable, any guest events and hooks, disable: the vCPU is idle afterwards if and only if every page hooked meanwhile had been hooked before |
| VcpuLife.HookAddedWhileTracingIsLost | revhv-km/ept.cpp:353-355 | A page hooked for the first time while tracing has full access in both views after the disable, though its hook is still registered |
| VcpuLife.AccessInMode | revhv-km/vmexit.cpp:755-822 | In any mode no access is fatal, and it completes after at most one exit if and only if it is not a fetch of a stuck page |
| VcpuLife.CommandKeepsInvariant | revhv-km/hypercall.cpp:137-212 | Every hypercall and guest event, in any mode and any order, goes through without a fatal exit and keeps the invariant of the mode it leads to |
| VcpuLife.LifeKeepsInvariant | revhv-km/hypercall.cpp:137-212 | So does every sequence of hypercalls and guest events: whole-life safety, with no order excluded |
| VcpuLife.FreshIsIdle | revhv-km/ept.cpp:96-193 | A vCPU as launched is idle, so every life starts in the invariant |
| VcpuLife.ShadowPagesOverLives | revhv-km/vmexit.cpp:763-787 | Whenever a vCPU is outside tracing after any commands from its launch: an unhooked page is mapped to itself with full access; a hooked one shows its original frame to permitted data accesses and its hook frame to permitted fetches, unless the last disable has opened it |
| VcpuLife.EntriesOverLives | revhv-km/vmexit.cpp:789-815 | Over every life the RIPs that went to the active ring are exactly those due, and the target view is active exactly when the guest is in the range: an entry is due when a fetch of a page that no hook swaps leaves the range, and on every second exit of a stuck fetch |
| VcpuLife.TraceWithHooks | revhv-km/vmexit.cpp:755-822 | Over any tracing with hooks added meanwhile and no stuck fetch, the entries are the departures from the range over the fetches of pages that no hook swaps |
| VcpuLife.MistypedPage | revhv-km/ept.cpp:237-260 | A life of three commands from the launch that leaves an uncacheable page typed write-back |
| VirtualCpus.RangeBacks | revhv-km/ept.cpp:379-399 | The pages enabled for a range are exactly those its addresses lie in, if the range does not wrap |
| VirtualCpus.RangePages | revhv-km/ept.cpp:378-391 | For every start and size, wrapping or empty: the pages translated run in order from the page of the start up to the end rounded up, modulo 2^64 |
| VirtualCpus.ComplementOfRange | revhv-km/ept.cpp:372-417 | The two-view complement stated for the addresses of the range instead of its list of pages |
| VirtualCpus.VirtualCpu.EnablePageOf | revhv-km/ept.cpp:396-413 | Both lookups are made, then both execute bits are set, or full access is restored in both views |
| VirtualCpus.VirtualCpu.EnableTracing | revhv-km/ept.cpp:372-417 | The page loop over the aligned range, with its translation of each page |
| VirtualCpus.VirtualCpu.RestoreAutoTrace | revhv-km/ept.cpp:419-423 | Restores full access in both views |
| VirtualCpus.VirtualCpu.HandleEptViolation | revhv-km/vmexit.cpp:755-822 | The violation handler: swap an active hook, else switch the view on a fetch, else fatal without a change; leaving the target view appends the captured entry to the ring if it is active and has room |
| VirtualCpus.VirtualCpu.HandleEptHook | revhv-km/hypercall.cpp:137-155 | Hooks the normal and then the target view; reports success if and only if both have a place, the page is below 512 GB, and each has its entry split or a table free |
| VirtualCpus.VirtualCpu.HandleEnableAutoTrace | revhv-km/hypercall.cpp:157-194 | The enable hypercall with its failure path; it succeeds if and only if page and table conditions hold for the range; success empties and activates the ring, failure leaves it |
| VirtualCpus.VirtualCpu.HandleDisableAutoTrace | revhv-km/hypercall.cpp:196-212 | The disable hypercall; it deactivates the ring and leaves what is pending in it |
| VirtualCpus.VirtualCpu.HandleMtrrWrite | revhv-km/vmexit.cpp:252-258 | Both views are refreshed after an MTRR write |
| PageTables.TranslateGva | revhv-km/memory.cpp:549-618 | From the entries at bits 39, 30, 21 and 12 of the address: frame and offset of a 1 GB, 2 MB or 4 KB page and the rest of the page, or zero where an entry on the way is absent |
| PageMaps.TranslatesAsMap | revhv-km/memory.cpp:549-618 | Tables built from any map of pages to frames, of 4 KB, 2 MB or 1 GB, translate every address below 2^48 as the map does, and nothing else |
| PageTables.WalkSameEntry | revhv-km/memory.cpp:549-618 | A walk does not depend on the address below the size of the leaf it ends at |
| PageTables.TranslationContiguous | revhv-km/memory.cpp:549-618 | Where the translation is not zero it is contiguous for the whole reported span, which is the rest of the page |
| GuestMemory.ReadGuestVirtual | revhv-km/introspection.cpp:8-39 | Reads exactly the longest reachable prefix of the range, byte for byte, and leaves the rest of the buffer |
| GuestMemory.WriteGuestVirtual | revhv-km/introspection.cpp:52-83 | Stores exactly the longest reachable prefix, and changes no other byte of memory |
| GuestMemory.NextBlock | revhv-km/introspection.cpp:17-36 | Each round of a copy loop makes progress, and its block is contiguous and inside the window |
| GuestMemory.StoredReadsBack | revhv-km/introspection.cpp:8-83 | Bytes stored to a range without aliases read back unchanged |
| GuestMemory.StoredElsewhere | revhv-km/introspection.cpp:52-83 | A store changes no byte outside the translated range |
| GuestMemory.HandleVmemRead | revhv-km/hypercall.cpp:10-62 | Reads up to one chunk from the address space of the named root, or of the system for root zero, and stores it for the caller; anything but a complete store counts as nothing |
| GuestMemory.ReadVmemory | revhv-um/hypercall.cpp:39-82 | For any size and any two ranges, with r source bytes that can be read and w buffer bytes that can be written: the result is r if r <= w, else the start of the chunk w lies in; memory is exactly as after storing the first min(r, w) bytes of the chunked read, so nothing else changes; in a buffer without aliases the caller finds the source bytes if the read is undisturbed |
| GuestMemory.ReadCountShape | revhv-um/hypercall.cpp:49-79 | If the buffer can be written as far, the result is all that can be read; else it is the last multiple of 4 KB that can be written |
| GuestMemory.OriginOfByte | revhv-um/hypercall.cpp:49-79 | Each byte of a chunked read is a byte of the memory before it, at an address that follows from the two ranges alone |
| GuestMemory.ReadExactIff | revhv-um/hypercall.cpp:49-79 | A chunked read gets the source bytes for every content of memory if and only if no chunk is stored over the source of a later one with another byte |
| GuestMemory.UndisturbedIffApart | revhv-um/hypercall.cpp:49-79 | Where no address is read twice that is: no chunk reads an address an earlier one was stored to |
| GuestMemory.DeliveredIff | revhv-um/hypercall.cpp:49-79 | The caller finds the source bytes in its buffer for every content of memory if and only if each position ends up with its own byte, aliases in the buffer included |
| GuestMemory.FoundIffUndisturbed | revhv-um/hypercall.cpp:49-79 | For a buffer without aliases that is the case if and only if the read is undisturbed |
| GuestMemory.SecondPageIsFirst | revhv-um/hypercall.cpp:49-79 | Reading two pages to the page behind the first: the call reports success, and the second page of the buffer is the first page of the source |
| GuestMemory.OneChunkIsUndisturbed | revhv-um/hypercall.cpp:49-79 | A read of at most one chunk is exact however buffer and source overlap |
| GuestMemory.LongestPrefixUnique | revhv-km/introspection.cpp:8-39 | The longest reachable prefix is one number, so the results above fix the count |
| HostTables.HostAgreesWithSystem | revhv-km/memory.cpp:107-322 | Whatever the host tables map outside the window, they map to the same leaf at the same level as the system tables |
| HostTables.AddTable | revhv-km/memory.cpp:140-155 | A new empty table under an absent entry changes no walk |
| HostTables.WriteLeaf | revhv-km/memory.cpp:135-313 | Copying a system leaf maps exactly the addresses under it and changes no walk that succeeded before |
| HostTables.LeafSlotIsFree | revhv-km/memory.cpp:164-307 | The entry overwritten is absent or that leaf already; no table is lost |
| HostMapping.GetSystemPte | revhv-km/memory.cpp:33-98 | The lookup table by table is the walk of the system tables |
| HostMapping.HostPageTables.constructor | revhv-km/memory.cpp:346-360 | The window maps the first 512 GB in 1 GB leaves and nothing else is mapped |
| HostMapping.HostPageTables.EnsureTable | revhv-km/memory.cpp:177-218 | Finds or allocates the next table on the path without changing a walk; fails if and only if the table is missing and no frame is left |
| HostMapping.HostPageTables.MapLeaf | revhv-km/memory.cpp:128-313 | Maps one leaf with the tables above it; without a frame no walk changes |
| HostMapping.HostPageTables.MapVaRange | revhv-km/memory.cpp:107-322 | Terminates; fails if and only if it meets an unmapped address, or one whose tables are missing when no frame is left; either way no earlier mapping changes, exactly the leaves looked up are added, and every frame taken is a table |
| HostMapping.RangeMapsLikeSystem | revhv-km/memory.cpp:107-322 | After success every address of the range walks as in the system tables, unless it was skipped; a skipped one is as before |
| HostMapping.CompleteIffNoneSkipped | revhv-km/memory.cpp:135-170 | A range is mapped completely if and only if no address follows, in the same 4 GB but a later 1 GB, an address of the range mapped by a 1 GB leaf |
| HostMapping.NoLargeLeafNoneSkipped | revhv-km/memory.cpp:164-170 | A range without 1 GB leaves has no skipped address |
| HostMapping.SecondGigabyteIsSkipped | revhv-km/memory.cpp:164-170 | Two 1 GB leaves in a row: the second is not mapped although the construction succeeds |
| HostMapping.AddedSharesLeaf | revhv-km/memory.cpp:100-107 | Over-mapping goes no further than the leaves of the range |
| HostMapping.WindowStays | revhv-km/memory.cpp:346-360 | The physical window is untouched by later mappings |
| TraceRings.TraceRing.Emit | revhv-km/trace.h:12-41 | Appends an entry, or changes nothing if the ring is inactive or holds 8191 |
| TraceRings.TraceRing.Drain | revhv-km/trace.h:48-71 | Removes the oldest entries in order, as many as there are up to the limit |
| TraceRings.QueueAppend | revhv-km/trace.h:17-40 | Storing at the write index and advancing it appends to the queue |
| TraceRings.QueueRemove | revhv-km/trace.h:53-64 | Advancing the read index removes the oldest entry |
| TraceRings.FlushTraceLogs | revhv-km/hypercall.cpp:214-268 | The batched flush delivers the oldest entries as one drain would; entries are lost if and only if the guest buffer is not mapped that far, and then exactly the batch that did not fit |
| TraceRings.FlushedBatches | revhv-km/hypercall.cpp:225-260 | How much is delivered and lost: everything and nothing, or whole batches of 64 up to the one that does not fit |
| RingInterleaving.ProduceKeepsInv | revhv-km/trace.h:12-41 | Every single access of the producer keeps the ring invariant |
| RingInterleaving.ConsumeKeepsInv | revhv-km/trace.h:48-71 | Every single access of the consumer keeps the ring invariant |
| RingInterleaving.EveryRun | revhv-km/trace.h:12-71 | After any interleaving the accepted entries are the delivered ones followed by the ring contents, at most 8191 are unreleased, and the slot being filled is never the one being copied |
| RingInterleaving.DropChangesNothing | revhv-km/trace.h:20-23 | A dropped entry changes neither memory nor history, and the ring was full |
| RingInterleaving.PendingIsQueue | revhv-km/trace.h:48-71 | While the consumer is at rest the entries it has still to deliver are those between the two indices |
| RingInterleaving.EmitAlone | revhv-km/trace.h:12-41 | The accesses of one emit, not interleaved, append the entry to that queue, or change nothing if the ring is inactive or full |
| RingInterleaving.DrainAlone | revhv-km/trace.h:48-71 | The accesses of one drain, not interleaved, deliver the oldest entries, as many as there are up to the limit, and take them off the queue |
| RingInterleaving.ResetIsCleanIff | revhv-km/hypercall.cpp:172-174 | After the reset of an enable every delivery is one of the entries accepted since, in order, if and only if the consumer is at rest, or stands at index zero with no copy under way |
| CrashRendezvous.NextKeepsInv | revhv-km/error.cpp:7-78 | Every step of any core keeps the invariant of the protocol |
| CrashRendezvous.EveryRun | revhv-km/error.cpp:7-78 | On any number of cores: at most one initiator, the counter counts acknowledged cores, and the waited-for bugcheck finds every core devirtualised |
| CrashRendezvous.AcknowledgesOnce | revhv-km/error.cpp:66-78 | A core acknowledges at most once and only after devirtualising |
| CrashRendezvous.DeliveredNmiIsAcknowledged | revhv-km/exception.cpp:92-96 | Each crash NMI delivered to a running core takes one off the unacknowledged cores |
| CrashRendezvous.WorkFalls | revhv-km/error.cpp:43-48 | No step adds work for the wait, and each change of phase takes some off |
| CrashRendezvous.Completes | revhv-km/error.cpp:43-50 | With an initiator there is a schedule to the bugcheck of at most six steps per core |
| CrashRendezvous.FairScheduleStops | revhv-km/error.cpp:18-50 | Every fair schedule in which no NMI or error hits the initiator before its devirtualisation ends in the waited-for bugcheck |
| CrashRendezvous.CompletesIffInitiator | revhv-km/error.cpp:7-78 | A crash in progress can end in the waited-for bugcheck if and only if its initiator is still there |
| CrashRendezvous.InitiatorLost | revhv-km/error.cpp:10-16 | The initiator is lost exactly when an NMI or error hits it between its claim and the end of its devirtualisation |
| CrashRendezvous.HijackedInitiator | revhv-km/exception.cpp:92-96 | One NMI in that interval is enough, on any number of cores |
| CrashRendezvous.StopsIff | revhv-km/error.cpp:35-50 | A core stops the system without waiting if and only if it cannot reach the APIC, and after waiting if and only if the counter has reached the number of cores |
| CrashRendezvous.FirstErrorClaims | revhv-km/error.cpp:10-16 | Of two errors the first claims the crash and the second yields |
| NmiWindow.EveryRun | revhv-km/vmexit.cpp:325-360 | With host NMIs between any two steps: received equals injected plus queued whenever the guest runs, window exiting is on at every entry exactly if the queue is not empty, the counter is never negative and no other control bit changes |
| NmiWindow.RunKeepsInv | revhv-km/vmcs.cpp:923-937 | Every step keeps the invariant, also between the read and the write of the control field |
| NmiWindow.CycleInjectsOne | revhv-km/vmexit.cpp:342-360 | One undisturbed window exit injects exactly one NMI and leaves window exiting on iff more are queued |
| NmiWindow.QueueDrains | revhv-km/vmexit.cpp:342-360 | As many window exits as NMIs are queued inject them all |
| NmiWindow.NmiExitQueues | revhv-km/vmexit.cpp:325-341 | An NMI the guest exits for is queued, with window exiting on when the guest runs again |
| NmiWindow.HostNmiQueues | revhv-km/exception.cpp:92-110 | So is one that hits the host, at any step of a handler |
| TransitionConfigs.ConfigTable.InsertExact | revhv-km/hypercall.cpp:270-294 | Updates the finite map at the address; address zero and a new address in a full table change nothing a lookup can see; the result tells whether there was room |
| TransitionConfigs.ConfigTable.LookupTransitionCfg | revhv-km/vmexit.cpp:667-687 | Returns the exact configuration of the address or the generic one; the count-zero shortcut is sound |
| TransitionConfigs.LookupAfterInserts | revhv-km/hypercall.cpp:270-294 | After any inserts a non-zero address is looked up as the last configuration inserted for it, else as the generic one, unless a full table refused it |
| TransitionConfigs.ContentsSize | revhv-km/hypercall.cpp:284-288 | The map has one key per occupied slot |
| TransitionConfigs.ProbeDecides | revhv-km/vmexit.cpp:676-683 | An empty slot on the probe path, or a whole round, shows that the address is absent |
| CaptureDecode.ResolveDataFields | revhv-km/vmexit.cpp:691-753 | Each of the six values is the register its field names, for all 18 fields, with the return address read from the stack of the guest |
| CaptureDecode.ReturnAddressBytes | revhv-km/vmexit.cpp:732-743 | Byte k of the captured return address is the byte of the guest at RSP + k as far as the stack can be read, and zero behind |
| CaptureDecode.FindDataSlot | revhv-um/trace_parser.hpp:487-493 | Finds the first slot of a configuration that holds a field |
| CaptureDecode.SelectConfig | revhv-um/trace_parser.hpp:578-600 | The parser takes the first mirrored entry for the value in the RIP slot of the generic configuration, else the generic one |
| CaptureDecode.SearchFirst | revhv-um/trace_parser.hpp:590-600 | Of several mirrored entries for an address the first one counts |
| CaptureDecode.FormatFields | revhv-um/trace_parser.hpp:610-632 | The default line lists the used slots of the chosen configuration with their values |
| CaptureDecode.DecodeAgreesIff | revhv-um/trace_parser.hpp:578-600 | The parser chooses the configuration the kernel captured with, for every guest, if and only if the layouts agree, a condition on the configurations alone |
| CaptureDecode.CaptureToLine | revhv-um/trace_parser.hpp:578-632 | If the layouts agree, what is shown of a captured entry is, slot by slot, the fields of the configuration for the RIP of the guest with the values of the guest |
| CaptureDecode.MirrorStaysInSync | revhv-um/commands.cpp:859-870 | The mirror of an accepted configuration agrees with the table again |
| CaptureDecode.ConfigMirror.ConfigureExact | revhv-um/commands.cpp:853-870 | Every core is asked, also after a refusal; all accept or all refuse, the mirror takes over exactly what they accepted, and mirror and tables of all cores stay in step |
| CaptureDecode.ConfigMirror.ConfigureGeneric | revhv-um/hypercall.cpp:150-169 | The generic configuration of every core and of the mirror is replaced and nothing else |
| CrShadow.EveryRun | revhv-km/vmexit.cpp:410-629 | Over every run of control-register instructions, exiting or not, the guest sees the registers of the reference machine and the real ones satisfy the VMX fixed bits |
| CrShadow.MovToCr0Refines | revhv-km/vmexit.cpp:410-493 | A MOV to CR0, exiting or not, refused or not, has the effect it has on the reference machine |
| CrShadow.MovToCr4Refines | revhv-km/vmexit.cpp:495-562 | The same for a MOV to CR4 |
| CrShadow.Cr0AllowedIsLegal | revhv-km/vmexit.cpp:415-462 | The handler refuses exactly the values that fault by the rules of the reference machine, which are stated bit by bit |
| CrShadow.Cr4AllowedIsLegal | revhv-km/vmexit.cpp:500-540 | The same for CR4 |
| CrShadow.Cr0Flips | revhv-km/vmexit.cpp:428-462 | What changing one bit of an accepted value does: PE, PG and the upper half cannot change, WP can be cleared iff CET is off, NW can be set iff CD is, and any other bit can change |
| CrShadow.Cr4Flips | revhv-km/vmexit.cpp:500-540 | The same for CR4: reserved bits, PAE and LA57 cannot change, SMXE, PCIDE and CET come on only under their conditions, any other bit can change |
| CrShadow.LongModeKept | revhv-km/vmexit.cpp:410-629 | No control-register instruction leaves a legal 64-bit state |
| CrShadow.WriteBack | revhv-km/vmexit.cpp:410-562 | In 64-bit mode writing back what was read is accepted in both registers and changes nothing |
| CrShadow.LowBits | revhv-km/vmexit.cpp:570-629 | LMSW takes bits 1 to 3 of its source and can set bit 0 only, CLTS clears bit 3, and all other bits stay |
| CrShadow.LmswExit | revhv-km/vmexit.cpp:592-629 | The LMSW handler agrees with the reference machine if and only if PE is masked, or being set, or equal in shadow and register |
| CrShadow.CltsExit | revhv-km/vmexit.cpp:570-590 | After its handler CLTS does not exit again, and exactly TS is cleared for the guest |
| CrShadow.CltsFixed | revhv-km/vmexit.cpp:570-590 | The CLTS handler keeps the fixed bits if and only if TS is not fixed to one |
| CrShadow.LaunchInv | revhv-km/vmcs.cpp:207-233 | The initial masks and shadows show the guest the registers of the system, without VMXE |
| CrShadow.ControlFields.MovToCr0 | revhv-km/vmexit.cpp:410-493 | The handler with its checks in order: it faults, without a change, exactly on the values that are not legal; else the guest sees what the reference machine does, with the fixed bits kept |
| CrShadow.ControlFields.MovToCr4 | revhv-km/vmexit.cpp:495-562 | The same for CR4 |
| CrShadow.ControlFields.Clts | revhv-km/vmexit.cpp:570-590 | From any state a guest can be in, the guest sees TS cleared as on the reference machine, and the fixed bits hold |
| CrShadow.ControlFields.Lmsw | revhv-km/vmexit.cpp:592-629 | From any state a guest can be in, the guest sees what LMSW does on the reference machine, and the fixed bits hold |
| LogRings.LogRing.WriteMessage | revhv-km/logging.cpp:88-115 | Appends the next message, truncated to 255 characters, dropping the oldest of 512 |
| LogRings.LogRing.FlushMessages | revhv-km/logging.cpp:157-203 | Removes exactly the oldest messages and stores them in at most two pieces, each up to its first unmapped message; what is not stored is removed all the same, and all are stored if and only if the buffer is mapped as far as there are messages |
| LogRings.IsStoredIff | revhv-km/logging.cpp:180-185 | A position of the buffer receives its message if and only if its piece is mapped from its start up to it |
| LogRings.WriteAdds | revhv-km/logging.cpp:88-115 | A write puts its message behind the pending ones with the next number, and its text whole up to 255 characters; the 513th displaces the oldest |
| LogRings.FlushReturns | revhv-km/logging.cpp:157-203 | A flush returns all that is pending if it may, and exactly as many messages as it may otherwise |
| LogRings.PieceAt | revhv-km/logging.cpp:171-185 | The oldest messages lie in two pieces, up to the end of the ring and from its start |
| LogRings.PendingAreNewest | revhv-km/logging.cpp:88-203 | After any writes and flushes the pending messages are the newest ones, in order, with consecutive numbers |
| LogRings.MessagesAccountedFor | revhv-km/logging.cpp:88-203 | Every message is returned once and in order, or overwritten, or pending; nothing else is lost |
| TraceMerge.MergeStreams | revhv-um/trace_parser.hpp:348-404 | The merge of any number of streams terminates, loses and duplicates nothing, keeps the order of each, writes the smallest head in every round, and is sorted by timestamp if and only if every stream is |
| TraceMerge.RemainingAdvance | revhv-um/trace_parser.hpp:389-391 | Each line takes one off the entries that remain, the termination measure |
| TraceMerge.InterleavingConserves | revhv-um/trace_parser.hpp:348-404 | Each entry occurs in the output as often as in its stream |

## Left out

- EPT root levels: the first PML4 entry and the directory-pointer entries always grant everything and are not modelled; page directories are one row-major array.
- Freshly zeroed tables: the constructor starts from identity 2 MB leaves instead of zero-filled entries that the same loop turns into them.
- Guest page-walk accesses that hit a hooked page, and instructions that straddle a page boundary: each access names one page.
- EPT invalidation: permissions take effect at once.
- MTRR ranges that end beyond 2^64, and reading the registers themselves: the register state is an input.
- Page-table frames above 512 GB: the tables are maps by frame number, read without a fault.
- Page tables that lie in the memory being written: the walk uses the tables as they were at the call.
- `handle_vmem_write` and `write_vmemory`: the mirror image of the modelled read.
- The request record of a memory hypercall: its fields are parameters.
- The captured data of a trace entry at the exit that emits it: the handler takes the entry as a parameter, and what is captured is modelled by itself.
- Virtual addresses that wrap around 2^64 during a host mapping or a copy; a mapped range lies in one half of the address space.
- Failing conversions between physical and kernel-virtual addresses in the host mapping.
- Interleavings within a reset of the ring: the two indices and the active flag are stored in one step.
- A configuration command that raises an exception on some core only, as on one that is not virtualised.
- Log messages that lie across the edge of a mapped page: a piece of the flush ends before such a message.
- Display formats, field and symbol names, and file input of the trace parser, and what a truncated configuration file yields.
- Which of two equal timestamps the merge writes first.
- The core-number check of the trace flush, and which core's ring it names.
- Serial output and message formatting; the re-entrant lock of the log: writes and flushes are atomic.
- Exceptions raised while a core devirtualises, other than as a loss of its claim.
- The vendor header with register layouts is not part of this model; bit positions are written out, and the reserved bits of CR4 are an input.
- CR0 checks for modes other than 64-bit mode, SMSW, and moves to CR3 and CR8.
- VMX launch, VMCS set-up, descriptor tables, APIC access, TSC hiding, the decoder and the inline-hook trampoline.
