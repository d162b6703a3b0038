# Virtual-memory simulator: translation and replacement engine

This project models the engine of a teaching simulator of virtual memory
(`VirtualMemorySimulation.c`). The simulated machine has four parts:

- a TLB of 8 entries, each with V, D and R bits, a virtual-page tag and a frame number;
- a page table of 1024 virtual pages, each row with V, D and R bits and a frame number;
- a frame table of 256 occupancy flags;
- eleven global event counters.

A memory access splits its address into a virtual page number (address / 1024).
It then either hits the TLB, or misses the TLB and finds the page resident in
the page table, or takes a page fault. On a fault the page is loaded into the
lowest free frame. When no frame is free, a victim page is evicted first, chosen
in the order of its page-table bits VDR 100, 110, 101, 111. The translation is
then cached in the lowest free TLB entry. When the TLB is full, an entry is shot
down and its D and R bits are written back to the page table.

The model has five modules:

- `Occupancy`: counting and searching flag vectors (the frame table, the V column).
- `Statistics`: the eleven counters as one `Counters` value, and `Balanced`, the
  conservation laws that hold among them.
- `Tables`: the TLB and page-table rows, and the two bookkeeping invariants.
  `FramesConsistent`: resident pages sit in distinct, occupied frames, and the
  number of resident pages equals the number of occupied frames.
  `TlbConsistent`: every valid TLB entry caches a resident page with that page's
  frame; no page is cached twice; the entry's D and R bits are at least as set
  as the page row's, because the page row is only brought up to date at a
  shootdown.
- `Transitions`: each operation as a function from one `Machine` (the three tables
  plus the counters) to the next. The lemmas prove what the operations promise:
  consistency is kept, pages move as described, and the counters change by exact
  amounts.
- `VirtualMemory`: the class `Engine`. It holds the tables as arrays that its
  methods update in place, as the C functions do. Each method is proved to make
  exactly the transition that the corresponding function of `Transitions`
  describes. Every method that models a whole C operation also keeps `Valid()`.
  The helpers GetAvailableTlbEntry, GetAvailableFrame, ReleasePage,
  EvictForFrame and ClaimFrame leave the tables inconsistent between steps, as
  the C code does (a V bit set before its row is filled, a frame claimed before
  a page is placed in it, a frame freed while its page is still valid).

The C code calls `rand()` in two places: to pick the TLB shootdown candidate
and to pick among the eviction candidates of one class. Those draws are ghost
results of the methods. `ShootdownChoice`, `EvictionChoice`, `CachePageChoices`
and `AccessChoices` state which values the C code can draw.

## Model

| member | source | states |
|---|---|---|
| Occupancy.FirstUnset | VirtualMemorySimulation.c:137-151 | the result is -1 exactly when every slot is set; otherwise it is an unset slot with every earlier slot set |
| Tables.FirstTranslation | VirtualMemorySimulation.c:31-42 | the result is -1 exactly when no valid entry carries the tag; otherwise it is the lowest valid entry with that tag |
| Tables.FullMemoryHasResidentPage | VirtualMemorySimulation.c:182-202 | with every frame allocated some page is valid, so the eviction selector's precondition holds whenever cache_page_in_RAM calls it |
| Tables.ResidentBound | VirtualMemorySimulation.c:135-151 | at most 256 pages are resident, and exactly 256 are resident exactly when every frame is allocated |
| Tables.NotResidentNotCached | VirtualMemorySimulation.c:241-242 | a page that is not resident has no TLB translation (a precondition of cache_page_in_RAM that the invariant guarantees) |
| Transitions.EmptyConsistent | VirtualMemorySimulation.c:549-551 | the zero-filled tables a run starts from are consistent and hold no resident page |
| Transitions.MemoryFullIffAllResident | VirtualMemorySimulation.c:254-265 | get_available_frame fails exactly when 256 pages are resident |
| Transitions.ShootdownConsistent | VirtualMemorySimulation.c:85-97 | a shootdown keeps the tables consistent, moves no page, leaves the page uncached, and carries a dirty entry's D bit into the page row |
| Transitions.CacheTranslationConsistent | VirtualMemorySimulation.c:99-133 | caching an uncached resident page keeps consistency, leaves its row, the residency and the frame table unchanged, and gives it an entry holding the page's frame and D and R bits; one TLB write is counted, and a shootdown exactly when the TLB was full |
| Transitions.CacheTranslationCounters | VirtualMemorySimulation.c:104-133 | one TLB write, and one shootdown exactly when no entry was free |
| Transitions.CacheTranslationFree | VirtualMemorySimulation.c:109-119 | with a free entry, the lowest free entry becomes the page's translation; the other entries, the page table and the frame table are unchanged, and only the TLB-write counter rises |
| Transitions.CacheTranslationShootdown | VirtualMemorySimulation.c:121-132 | with a full TLB, consistency is kept, the drawn entry's D and R bits are written back to its page, and that entry becomes the page's translation; no other entry changes; one TLB write and one shootdown are counted |
| Transitions.CacheTranslationReuse | VirtualMemorySimulation.c:121-129 | with a full TLB, the page table differs only by the write-back of the drawn entry's bits, and only the drawn entry is overwritten |
| Transitions.InstallConsistent | VirtualMemorySimulation.c:113-116 | copying the row of an uncached resident page into a free entry keeps consistency and makes that entry the page's translation |
| Transitions.EvictConsistent | VirtualMemorySimulation.c:204-239 | an eviction keeps consistency, leaves the page not resident and uncached, frees exactly its frame, and lowers the resident count by one |
| Transitions.EvictCounters | VirtualMemorySimulation.c:209-230 | one eviction; one disk write exactly when the page was modified (its row or its cached entry dirty); the return value is 1 for a shootdown plus 10 for a disk write |
| Transitions.FreeFrameConsistent | VirtualMemorySimulation.c:254-269 | after the eviction branch a frame is free, the faulting page is still not resident, and with all frames allocated the freed frame is the lowest free one |
| Transitions.LoadConsistent | VirtualMemorySimulation.c:256-261 | placing the page in the lowest free frame keeps consistency, raises the resident count by one, and leaves the page uncached |
| Transitions.LoadPageConsistent | VirtualMemorySimulation.c:246-273 | loading a faulting page keeps consistency and leaves it resident and uncached, with V=1, D=write and R=1 |
| Transitions.LoadPageTlb | VirtualMemorySimulation.c:262-268 | loading changes the TLB only through the eviction's shootdown |
| Transitions.LoadPageFrames | VirtualMemorySimulation.c:254-273 | a page is evicted exactly when every frame was allocated; the victim then becomes non-resident and the faulting page takes its frame; otherwise the page takes the lowest free frame; no other page moves |
| Transitions.LoadPageEvicting | VirtualMemorySimulation.c:265-273 | with every frame allocated, the victim loses residency, the faulting page takes the victim's frame, and every other page keeps its residency and frame |
| Transitions.LoadPageEvictingCount | VirtualMemorySimulation.c:265-273 | with every frame allocated, the resident count is unchanged |
| Transitions.LoadPageNotEvicting | VirtualMemorySimulation.c:254-261 | with a free frame, the page takes the lowest free frame, the resident count rises by one, and no other page moves |
| Transitions.LoadPageCounters | VirtualMemorySimulation.c:246-273 | one disk read and one page-table write; one eviction exactly when memory was full; a shootdown exactly when the victim was cached; one disk write exactly when the victim was modified |
| Transitions.CachePageConsistent | VirtualMemorySimulation.c:241-276 | serving a fault keeps consistency and leaves the page resident and cached, its entry holding the page's fresh bits |
| Transitions.CachePageFrames | VirtualMemorySimulation.c:246-276 | serving a fault moves pages exactly as loading does; caching the translation moves no page |
| Transitions.CachePageCounters | VirtualMemorySimulation.c:246-276 | a fault counts one disk read, one page-table write, one TLB write, and one eviction exactly when memory was full; at most one disk write, only when evicting; at most one shootdown for the TLB plus one for the eviction |
| Transitions.CachePageAfterLoad | VirtualMemorySimulation.c:262-274 | caching after the load adds one TLB write, and one shootdown exactly when the TLB is full |
| Transitions.ResetReferencesConsistent | VirtualMemorySimulation.c:278-288 | clearing the R bits keeps consistency and leaves no R bit set; every TLB entry and page row is otherwise unchanged, as are the frame table and the counters |
| Transitions.AccessAsWrittenLosesWrite | VirtualMemorySimulation.c:320-327 | a write that misses the TLB on a resident, unmodified page leaves the page unmodified, as written; the corrected access records it |
| Transitions.LostWriteReached | VirtualMemorySimulation.c:320-327 | a read that misses the TLB on a resident page with the TLB full may shoot down a clean entry; the page it cached is then resident, unmodified and uncached, the state in which a later write is lost |
| Transitions.AccessAsWrittenConsistent | VirtualMemorySimulation.c:290-328 | the access as written keeps consistency and leaves the page resident and cached; it ends with the same page table, frame table and counters as the corrected access, so `AccessCounters` holds for it too; the two differ only in the accessed page's entry |
| Transitions.AccessConsistent | VirtualMemorySimulation.c:290-328 | every access keeps consistency and leaves the page resident and cached, its entry referenced and, on a write, the page modified |
| Transitions.CacheAndTouchConsistent | VirtualMemorySimulation.c:320-327 | the corrected miss on a resident page keeps consistency and leaves an entry holding the page's bits, marked as a hit marks it |
| Transitions.AccessCounters | VirtualMemorySimulation.c:290-328 | exactly one TLB hit or one TLB miss; a miss is a page-table hit or a fault; the conservation laws among the counters are kept |
| Transitions.AccessHit | VirtualMemorySimulation.c:301-308 | a TLB hit changes only the hit entry, which keeps its V bit, tag and frame and gets R set, and D set on a write; the page and frame tables are unchanged and only the hit counter rises |
| VirtualMemory.Engine.constructor | VirtualMemorySimulation.c:549-551 | zero-filled tables and counters that are consistent and balanced |
| VirtualMemory.Engine.ResetGlobals | VirtualMemorySimulation.c:356-370 | every counter is zero, the tables are unchanged, and consistent tables stay consistent |
| VirtualMemory.Engine.TlbLookup | VirtualMemorySimulation.c:31-42 | returns `FirstTranslation` of the TLB |
| VirtualMemory.Engine.GetAvailableTlbEntry | VirtualMemorySimulation.c:44-60 | returns the lowest entry with V clear, or -1; sets that V bit and nothing else |
| VirtualMemory.Engine.SelectTlbShootdownCandidate | VirtualMemorySimulation.c:62-83 | returns an index in range that is unreferenced and valid whenever such an entry exists |
| VirtualMemory.Engine.TlbShootdown | VirtualMemorySimulation.c:85-97 | makes the `Shootdown` transition and keeps `Valid()` |
| VirtualMemory.Engine.CacheTranslationInTlb | VirtualMemorySimulation.c:99-133 | makes the `CacheTranslation` transition with a drawn candidate the C code can pick; returns 1 exactly when the TLB was full |
| VirtualMemory.Engine.GetAvailableFrame | VirtualMemorySimulation.c:135-151 | returns the lowest free frame, or -1; marks that frame and nothing else |
| VirtualMemory.Engine.SearchPageTableByVdr | VirtualMemorySimulation.c:153-180 | returns -1 exactly when no row has the given V, D and R bits; otherwise a row that has them |
| VirtualMemory.Engine.SelectPageEvictionCandidate | VirtualMemorySimulation.c:182-202 | returns a resident page whose rank in the order 100, 110, 101, 111 is lowest among resident pages |
| VirtualMemory.Engine.PageEvict | VirtualMemorySimulation.c:204-239 | makes the `Evict` transition, returns `EvictCost`, and keeps `Valid()` |
| VirtualMemory.Engine.ReleasePage | VirtualMemorySimulation.c:225-236 | makes the `Release` transition: the eviction and a dirty page's disk write are counted, the frame is freed, V is cleared |
| VirtualMemory.Engine.EvictForFrame | VirtualMemorySimulation.c:265-269 | evicts a candidate the selector can draw and claims the frame it freed |
| VirtualMemory.Engine.ClaimFrame | VirtualMemorySimulation.c:254-269 | claims the lowest frame that is free after the optional eviction |
| VirtualMemory.Engine.LoadIntoRam | VirtualMemorySimulation.c:246-273 | makes the `LoadPage` transition and keeps `Valid()` |
| VirtualMemory.Engine.CachePageInRam | VirtualMemorySimulation.c:241-276 | makes the `CachePage` transition with draws the C code can make, and keeps `Valid()` |
| VirtualMemory.Engine.ResetReferenceBits | VirtualMemorySimulation.c:278-288 | makes the `ResetReferences` transition and keeps `Valid()` |
| VirtualMemory.Engine.TouchEntry | VirtualMemorySimulation.c:301-308 | marks the hit entry referenced, and dirty on a write, and keeps `Valid()` |
| VirtualMemory.Engine.CacheAndTouchEntry | VirtualMemorySimulation.c:320-327 | makes the corrected `CacheAndTouch` transition and keeps `Valid()` |
| VirtualMemory.Engine.MemoryAccess | VirtualMemorySimulation.c:290-328 | makes the corrected `Access` transition with draws the C code can make, and keeps `Valid()` |

## Left out

- drawOutput, the testCase functions and main (menus, `scanf`, `srand`, printing) are not part of this model: they are I/O around the engine.
- The distribution of `rand()` is left out. The drawn values are ghost results constrained to the values the C code can draw. The retry loop of select_TLB_shootdown_candidate is replaced by a direct choice among the unreferenced valid entries.
- The `malloc`/`free` of search_PageTable_by_VDR is left out. The buffer leaks when no row matches; this has no effect on the tables.
- The counters are unbounded naturals: `int` overflow after 2^31 events is not modelled.
- VirtualMemory.Engine.MemoryAccess: requires address / 1024 < 1024. The C code indexes the page table out of bounds for larger addresses, which is undefined behaviour.
- VirtualMemory.Engine.SelectPageEvictionCandidate: requires that some page is resident. In C the function falls off its end otherwise (undefined behaviour). `Tables.FullMemoryHasResidentPage` proves that the caller always meets this requirement.
- VirtualMemory.Engine.TlbShootdown, VirtualMemory.Engine.PageEvict: require that the entry or page is valid, the preconditions the C comments state.
- cache_translation_in_TLB ends with `else if (index == -1)` and no final return. That path cannot be reached, so the model has two branches.
- VirtualMemory.Engine.PageEvict: counts the eviction after the shootdown; the C code counts it before. The final counters are the same.
- VirtualMemory.Engine.MemoryAccess: implements the corrected miss on a resident page (see Findings). The as-written behaviour is `Transitions.AccessAsWritten`.
- Two C functions are split into smaller methods: cache_page_in_RAM into ClaimFrame, EvictForFrame and LoadIntoRam, and page_evict's tail into ReleasePage. The split methods have the same effects as the C functions; only the order of the counter increments within page_evict differs.

## Findings

| source | as written | input that shows it | evidently intended | confidence | as-written member | corrected member |
|---|---|---|---|---|---|---|
| VirtualMemorySimulation.c:320-327 | a TLB miss on a resident page only caches the translation; the access itself is never recorded, so the new entry is clean even on a write | read page 0; read other pages until page 0's clean entry is shot down; then write page 0: page 0 stays clean in both tables, and its later eviction counts no disk write | the access is recorded as on a TLB hit: the entry is referenced, and dirty on a write | not executed | Transitions.AccessAsWrittenLosesWrite | Transitions.AccessConsistent |

Two further consequences of the code as written, neither of them an error:

- When every frame is allocated, the faulting page always takes the victim's
  frame. After the eviction that frame is the only free one
  (`Transitions.LoadPageEvicting`).
- The eviction candidate is chosen on the page-table bits. Those may be older
  than the bits in the page's TLB entry, which are written back only during the
  eviction itself.
