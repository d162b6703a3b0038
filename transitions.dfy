/** The engine's operations as functions from one machine state to the next.
    Each function follows one C function of the simulator step by step,
    counters included.  The C code draws the TLB shootdown candidate and the
    page eviction candidate with `rand()`; here those draws are parameters,
    and `ShootdownChoice` and `EvictionChoice` say which values the C code can
    draw.  The lemmas state what the source promises about each operation. */
module Transitions {
  import opened Occupancy
  import opened Statistics
  import opened Tables

  /** The whole state a memory access reads and writes: the TLB, the page
      table, the frame table and the counters. */
  datatype Machine = Machine(tlb: seq<TlbEntry>, pageTable: seq<PageEntry>, frameTable: seq<bool>, stats: Counters)

  /** The bookkeeping invariant that ties the three tables together. */
  ghost predicate Consistent(m: Machine)
  {
    FramesConsistent(m.pageTable, m.frameTable) && TlbConsistent(m.tlb, m.pageTable)
  }

  /** Every TLB entry is valid: caching a translation needs a shootdown. */
  predicate TlbFull(t: seq<TlbEntry>)
  {
    FirstUnset(Occupied(t)) == -1
  }

  /** Every frame is allocated: loading a page needs an eviction. */
  predicate MemoryFull(ft: seq<bool>)
  {
    FirstUnset(ft) == -1
  }

  /** `k` is an index the shootdown-candidate selection can draw for the TLB
      `t`: an unreferenced valid entry when the TLB is full and one exists,
      otherwise any index. */
  predicate ShootdownChoice(t: seq<TlbEntry>, k: int)
  {
    && 0 <= k < |t|
    && (TlbFull(t) && (exists i :: 0 <= i < |t| && Unreferenced(t[i])) ==> Unreferenced(t[k]))
  }

  /** Page `vpn` has been written since it was loaded: its row is dirty, or
      its cached translation is (the TLB holds the newer bits). */
  predicate Modified(m: Machine, vpn: nat)
    requires vpn < |m.pageTable|
  {
    m.pageTable[vpn].dirty || exists i :: 0 <= i < |m.tlb| && Translates(m.tlb[i], vpn) && m.tlb[i].dirty
  }

  /** TLB_shootdown of entry `k`. */
  function Shootdown(m: Machine, k: nat): Machine
    requires k < |m.tlb| && m.tlb[k].vpn < |m.pageTable|
  {
    var e := m.tlb[k];
    m.(tlb := m.tlb[k := e.(valid := false)],
       pageTable := m.pageTable[e.vpn := WriteBack(m.pageTable[e.vpn], e)],
       stats := m.stats.(tlbShootDowns := m.stats.tlbShootDowns + 1))
  }

  /** The copy of page `vpn`'s row into TLB entry `slot`. */
  function Install(m: Machine, slot: nat, vpn: nat): Machine
    requires slot < |m.tlb| && vpn < |m.pageTable|
  {
    m.(tlb := m.tlb[slot := Translation(vpn, m.pageTable[vpn])])
  }

  /** cache_translation_in_TLB: the first free entry receives the
      translation; when there is none, the drawn candidate `k` is shot down
      and reused. */
  function CacheTranslation(m: Machine, vpn: nat, k: nat): Machine
    requires vpn < |m.pageTable|
    requires TlbFull(m.tlb) ==> k < |m.tlb| && m.tlb[k].vpn < |m.pageTable|
  {
    var m' := m.(stats := m.stats.(tlbWrites := m.stats.tlbWrites + 1));
    var free := FirstUnset(Occupied(m.tlb));
    if free != -1 then Install(m', free, vpn)
    else Install(Shootdown(m', k), k, vpn)
  }

  /** page_evict: shoot down the page's translation if cached, then release
      the page.  The C code counts the eviction before the shootdown; the
      counters come out the same. */
  function Evict(m: Machine, vpn: nat): Machine
    requires vpn < |m.pageTable| && m.pageTable[vpn].frame < |m.frameTable|
  {
    var k := FirstTranslation(m.tlb, vpn);
    Release(if k != -1 then Shootdown(m, k) else m, vpn)
  }

  /** The rest of page_evict: count the eviction and, if the page is dirty,
      a disk write; free its frame and clear its V bit. */
  function Release(m: Machine, vpn: nat): Machine
    requires vpn < |m.pageTable| && m.pageTable[vpn].frame < |m.frameTable|
  {
    var p := m.pageTable[vpn];
    Machine(m.tlb, m.pageTable[vpn := p.(valid := false)], m.frameTable[p.frame := false],
            m.stats.(pageTableEvictions := m.stats.pageTableEvictions + 1, hddWrites := m.stats.hddWrites + Bit(p.dirty)))
  }

  /** The return value of page_evict: 1 for a shootdown plus 10 for a disk
      write. */
  function EvictCost(m: Machine, vpn: nat): nat
    requires vpn < |m.pageTable|
  {
    Bit(FirstTranslation(m.tlb, vpn) != -1) + 10 * Bit(Flushed(m.tlb, m.pageTable[vpn], vpn).dirty)
  }

  /** The first free frame is claimed and page `vpn` is placed in it,
      referenced, and dirty if the access writes. */
  function Load(m: Machine, vpn: nat, write: bool): Machine
    requires vpn < |m.pageTable| && !MemoryFull(m.frameTable)
  {
    var f := FirstUnset(m.frameTable);
    m.(frameTable := m.frameTable[f := true], pageTable := m.pageTable[vpn := PageEntry(true, write, true, f)])
  }

  /** cache_page_in_RAM: evict the drawn candidate `victim` if no frame is
      free, load page `vpn` into a free frame, then cache its translation
      (shooting down the drawn entry `k` if the TLB is full). */
  function CachePage(m: Machine, vpn: nat, write: bool, victim: nat, k: nat): Machine
    requires Consistent(m) && vpn < |m.pageTable| && !m.pageTable[vpn].valid
    requires MemoryFull(m.frameTable) ==> victim < |m.pageTable| && m.pageTable[victim].valid
    requires k < TLB_SIZE
  {
    LoadPageConsistent(m, vpn, write, victim);
    CacheTranslation(LoadPage(m, vpn, write, victim), vpn, k)
  }

  /** The first two parts of cache_page_in_RAM: count the disk read and the
      page-table write, free a frame by evicting `victim` if none is free,
      and load page `vpn` into the lowest free frame. */
  function LoadPage(m: Machine, vpn: nat, write: bool, victim: nat): Machine
    requires Consistent(m) && vpn < |m.pageTable| && !m.pageTable[vpn].valid
    requires MemoryFull(m.frameTable) ==> victim < |m.pageTable| && m.pageTable[victim].valid
  {
    var m0 := m.(stats := m.stats.(hddReads := m.stats.hddReads + 1, pageTableWrites := m.stats.pageTableWrites + 1));
    FreeFrameConsistent(m0, victim, vpn);
    var m1 := FreeFrame(m0, victim);
    Load(m1, vpn, write)
  }

  /** The first part of cache_page_in_RAM: when no frame is free, evict the
      drawn candidate `victim`. */
  function FreeFrame(m: Machine, victim: nat): Machine
    requires MemoryFull(m.frameTable) ==> victim < |m.pageTable| && m.pageTable[victim].frame < |m.frameTable|
  {
    if MemoryFull(m.frameTable) then Evict(m, victim) else m
  }

  /** The random draws of cache_page_in_RAM are ones the C code can make. */
  ghost predicate CachePageChoices(m: Machine, victim: nat, k: nat)
    requires Consistent(m)
  {
    && (MemoryFull(m.frameTable) ==> EvictionChoice(m.pageTable, victim))
    && ShootdownChoice(if MemoryFull(m.frameTable) then Evict(m, victim).tlb else m.tlb, k)
  }

  /** reset_reference_bits: every R bit, in the TLB and in the page table, is
      cleared. */
  function ResetReferences(m: Machine): Machine
  {
    m.(tlb := seq(|m.tlb|, i requires 0 <= i < |m.tlb| => m.tlb[i].(referenced := false)),
       pageTable := seq(|m.pageTable|, p requires 0 <= p < |m.pageTable| => m.pageTable[p].(referenced := false)))
  }

  /** The counter updates memory_access makes before serving a miss. */
  function CountFault(c: Counters): Counters
  {
    c.(tlbMisses := c.tlbMisses + 1, pageFaults := c.pageFaults + 1, pageTableAccesses := c.pageTableAccesses + 1)
  }

  /** The counter updates memory_access makes on a miss that finds the page
      resident. */
  function CountTableHit(c: Counters): Counters
  {
    c.(tlbMisses := c.tlbMisses + 1, pageTableAccesses := c.pageTableAccesses + 1, pageTableHits := c.pageTableHits + 1)
  }

  /** memory_access as the C code does it: a TLB hit marks the entry; a miss
      on a resident page only caches its translation; a miss on a page that
      is not resident loads it. */
  function AccessAsWritten(m: Machine, address: nat, write: bool, victim: nat, k: nat): Machine
    requires Consistent(m) && address / PAGE_SIZE < |m.pageTable|
    requires !m.pageTable[address / PAGE_SIZE].valid && MemoryFull(m.frameTable) ==>
               victim < |m.pageTable| && m.pageTable[victim].valid
    requires k < TLB_SIZE
  {
    var vpn := address / PAGE_SIZE;
    var i := FirstTranslation(m.tlb, vpn);
    if i != -1 then
      m.(tlb := m.tlb[i := Touched(m.tlb[i], write)], stats := m.stats.(tlbHits := m.stats.tlbHits + 1))
    else if !m.pageTable[vpn].valid then
      CachePage(m.(stats := CountFault(m.stats)), vpn, write, victim, k)
    else
      CacheTranslation(m.(stats := CountTableHit(m.stats)), vpn, k)
  }

  /** memory_access with the access recorded on every path: after a miss on
      a resident page has cached the translation, the new entry is marked
      referenced, and dirty on a write, as a TLB hit would mark it. */
  function Access(m: Machine, address: nat, write: bool, victim: nat, k: nat): Machine
    requires Consistent(m) && address / PAGE_SIZE < |m.pageTable|
    requires !m.pageTable[address / PAGE_SIZE].valid && MemoryFull(m.frameTable) ==>
               victim < |m.pageTable| && m.pageTable[victim].valid
    requires k < TLB_SIZE
  {
    var vpn := address / PAGE_SIZE;
    var i := FirstTranslation(m.tlb, vpn);
    if i != -1 then
      m.(tlb := m.tlb[i := Touched(m.tlb[i], write)], stats := m.stats.(tlbHits := m.stats.tlbHits + 1))
    else if !m.pageTable[vpn].valid then
      CachePage(m.(stats := CountFault(m.stats)), vpn, write, victim, k)
    else
      CacheAndTouch(m.(stats := CountTableHit(m.stats)), vpn, write, k)
  }

  /** The corrected miss on a resident page: cache the translation, then mark
      the new entry referenced, and dirty on a write, as a hit would. */
  function CacheAndTouch(m: Machine, vpn: nat, write: bool, k: nat): Machine
    requires Consistent(m) && vpn < |m.pageTable| && m.pageTable[vpn].valid
    requires FirstTranslation(m.tlb, vpn) == -1 && k < TLB_SIZE
  {
    CacheTranslationConsistent(m, vpn, k);
    var r := CacheTranslation(m, vpn, k);
    var j := FirstTranslation(r.tlb, vpn);
    r.(tlb := r.tlb[j := Touched(r.tlb[j], write)])
  }

  /** The random draws of one memory access are ones the C code can make. */
  ghost predicate AccessChoices(m: Machine, address: nat, victim: nat, k: nat)
    requires Consistent(m) && address / PAGE_SIZE < |m.pageTable|
  {
    var vpn := address / PAGE_SIZE;
    FirstTranslation(m.tlb, vpn) == -1 ==>
      if m.pageTable[vpn].valid then ShootdownChoice(m.tlb, k) else CachePageChoices(m, victim, k)
  }

  // ---------------------------------------------------------------------
  // Properties of the operations

  /** The tables a run starts from: the right sizes, every entry invalid and
      every frame free. */
  predicate Empty(m: Machine)
  {
    && |m.tlb| == TLB_SIZE && |m.pageTable| == VPAGES && |m.frameTable| == FRAMES
    && (forall i :: 0 <= i < |m.tlb| ==> !m.tlb[i].valid)
    && (forall p :: 0 <= p < |m.pageTable| ==> !m.pageTable[p].valid)
    && (forall f :: 0 <= f < |m.frameTable| ==> !m.frameTable[f])
  }

  /** A run starts from empty tables, which are consistent and hold no
      resident page. */
  lemma EmptyConsistent(m: Machine)
    requires Empty(m)
    ensures Consistent(m) && ResidentCount(m.pageTable) == 0
  {
    CountTrueZero(Residency(m.pageTable));
    CountTrueZero(m.frameTable);
  }

  /** Every frame is allocated exactly when as many pages are resident as
      there are frames. */
  lemma MemoryFullIffAllResident(m: Machine)
    requires Consistent(m)
    ensures MemoryFull(m.frameTable) <==> ResidentCount(m.pageTable) == FRAMES
    ensures ResidentCount(m.pageTable) <= FRAMES
  {
    ResidentBound(m.pageTable, m.frameTable);
  }

  /** A shootdown keeps the tables consistent, moves no page, and makes the
      entry's dirty bit visible in the page table. */
  lemma ShootdownConsistent(m: Machine, k: nat)
    requires Consistent(m) && k < |m.tlb| && m.tlb[k].valid
    ensures Consistent(Shootdown(m, k))
    ensures SameResidency(m.pageTable, Shootdown(m, k).pageTable)
    ensures FirstTranslation(Shootdown(m, k).tlb, m.tlb[k].vpn) == -1
    ensures m.tlb[k].dirty ==> Shootdown(m, k).pageTable[m.tlb[k].vpn].dirty
  {
    ShootdownKeepsTlb(m.tlb, m.pageTable, k);
    FramesIgnoreBits(m.pageTable, Shootdown(m, k).pageTable, m.frameTable);
    var t' := Shootdown(m, k).tlb;
    forall i | 0 <= i < |t'| ensures !Translates(t'[i], m.tlb[k].vpn) {
      assert !TagClash(m.tlb, i, k);
    }
  }

  /** Caching the translation of a resident, uncached page keeps the tables
      consistent, leaves the page cached with its own bits, moves no page,
      and counts one TLB write plus a shootdown exactly when the TLB was
      full. */
  lemma CacheTranslationConsistent(m: Machine, vpn: nat, k: nat)
    requires Consistent(m) && vpn < |m.pageTable| && m.pageTable[vpn].valid
    requires FirstTranslation(m.tlb, vpn) == -1 && k < |m.tlb|
    ensures var r := CacheTranslation(m, vpn, k);
            && Consistent(r)
            && r.pageTable[vpn] == m.pageTable[vpn]
            && FirstTranslation(r.tlb, vpn) != -1
            && r.tlb[FirstTranslation(r.tlb, vpn)] == Translation(vpn, m.pageTable[vpn])
            && SameResidency(m.pageTable, r.pageTable)
            && r.frameTable == m.frameTable
            && r.stats == m.stats.(tlbWrites := m.stats.tlbWrites + 1,
                                   tlbShootDowns := m.stats.tlbShootDowns + Bit(TlbFull(m.tlb)))
  {
    if TlbFull(m.tlb) {
      CacheTranslationShootdown(m, vpn, k);
    } else {
      CacheTranslationFree(m, vpn, k);
    }
    CacheTranslationCounters(m, vpn, k);
  }

  /** Caching a translation counts one TLB write, and a shootdown exactly
      when the TLB was full. */
  lemma CacheTranslationCounters(m: Machine, vpn: nat, k: nat)
    requires vpn < |m.pageTable|
    requires TlbFull(m.tlb) ==> k < |m.tlb| && m.tlb[k].vpn < |m.pageTable|
    ensures CacheTranslation(m, vpn, k).stats ==
            m.stats.(tlbWrites := m.stats.tlbWrites + 1, tlbShootDowns := m.stats.tlbShootDowns + Bit(TlbFull(m.tlb)))
  {
  }

  lemma CacheTranslationFree(m: Machine, vpn: nat, k: nat)
    requires Consistent(m) && vpn < |m.pageTable| && m.pageTable[vpn].valid
    requires FirstTranslation(m.tlb, vpn) == -1 && !TlbFull(m.tlb)
    ensures var r := CacheTranslation(m, vpn, k);
            var free := FirstUnset(Occupied(m.tlb));
            && Consistent(r)
            && r.pageTable == m.pageTable
            && FirstTranslation(r.tlb, vpn) == free
            && r.tlb[free] == Translation(vpn, m.pageTable[vpn])
            && (forall j :: 0 <= j < |m.tlb| && j != free ==> r.tlb[j] == m.tlb[j])
            && r.frameTable == m.frameTable
            && r.stats == m.stats.(tlbWrites := m.stats.tlbWrites + 1)
  {
    var m' := m.(stats := m.stats.(tlbWrites := m.stats.tlbWrites + 1));
    InstallConsistent(m', FirstUnset(Occupied(m.tlb)), vpn);
  }

  lemma CacheTranslationShootdown(m: Machine, vpn: nat, k: nat)
    requires Consistent(m) && vpn < |m.pageTable| && m.pageTable[vpn].valid
    requires FirstTranslation(m.tlb, vpn) == -1 && TlbFull(m.tlb) && k < |m.tlb|
    ensures var r := CacheTranslation(m, vpn, k);
            var e := m.tlb[k];
            && Consistent(r)
            && r.pageTable[vpn] == m.pageTable[vpn]
            && FirstTranslation(r.tlb, vpn) == k
            && r.tlb[k] == Translation(vpn, m.pageTable[vpn])
            && (forall j :: 0 <= j < |m.tlb| && j != k ==> r.tlb[j] == m.tlb[j])
            && r.pageTable == m.pageTable[e.vpn := WriteBack(m.pageTable[e.vpn], e)]
            && SameResidency(m.pageTable, r.pageTable)
            && r.frameTable == m.frameTable
            && r.stats == m.stats.(tlbWrites := m.stats.tlbWrites + 1, tlbShootDowns := m.stats.tlbShootDowns + 1)
  {
    var m' := m.(stats := m.stats.(tlbWrites := m.stats.tlbWrites + 1));
    assert m.tlb[k].valid;
    CacheTranslationReuse(m, vpn, k);
    ShootdownConsistent(m', k);
    ShootdownKeepsUncached(m.tlb, k, vpn);
    InstallConsistent(Shootdown(m', k), k, vpn);
  }

  /** With a full TLB, the drawn entry's D and R bits are written back to
      its page and the entry then holds the new translation; no other entry
      changes. */
  lemma CacheTranslationReuse(m: Machine, vpn: nat, k: nat)
    requires vpn < |m.pageTable| && TlbFull(m.tlb) && k < |m.tlb| && m.tlb[k].vpn < |m.pageTable|
    ensures var r := CacheTranslation(m, vpn, k);
            var e := m.tlb[k];
            && |r.tlb| == |m.tlb|
            && r.tlb[k] == Translation(vpn, r.pageTable[vpn])
            && (forall j :: 0 <= j < |m.tlb| && j != k ==> r.tlb[j] == m.tlb[j])
            && r.pageTable == m.pageTable[e.vpn := WriteBack(m.pageTable[e.vpn], e)]
            && r.frameTable == m.frameTable
            && r.stats == m.stats.(tlbWrites := m.stats.tlbWrites + 1, tlbShootDowns := m.stats.tlbShootDowns + 1)
  {
  }

  /** Installing the translation of a resident, uncached page in a free
      entry keeps the tables consistent and makes that entry the one that
      translates the page. */
  lemma InstallConsistent(m: Machine, slot: nat, vpn: nat)
    requires Consistent(m) && vpn < |m.pageTable| && m.pageTable[vpn].valid
    requires FirstTranslation(m.tlb, vpn) == -1 && slot < |m.tlb| && !m.tlb[slot].valid
    ensures Consistent(Install(m, slot, vpn))
    ensures FirstTranslation(Install(m, slot, vpn).tlb, vpn) == slot
  {
    InstallKeepsTlb(m.tlb, m.pageTable, slot, vpn);
    FirstTranslationOfInstall(m.tlb, slot, vpn, m.pageTable[vpn]);
  }

  /** Once no entry translates `vpn`, installing its translation in `slot`
      makes `slot` the entry that translates it. */
  lemma FirstTranslationOfInstall(t: seq<TlbEntry>, slot: nat, vpn: nat, p: PageEntry)
    requires slot < |t| && FirstTranslation(t, vpn) == -1
    ensures FirstTranslation(t[slot := Translation(vpn, p)], vpn) == slot
  {
    var t' := t[slot := Translation(vpn, p)];
    assert Translates(t'[slot], vpn);
  }

  /** An eviction keeps the tables consistent, leaves no translation of the
      page in the TLB, frees exactly the page's frame, lowers the resident
      count by one and moves no other page. */
  lemma EvictConsistent(m: Machine, vpn: nat)
    requires Consistent(m) && vpn < |m.pageTable| && m.pageTable[vpn].valid
    ensures var r := Evict(m, vpn);
            && Consistent(r)
            && !r.pageTable[vpn].valid
            && FirstTranslation(r.tlb, vpn) == -1
            && r.frameTable == m.frameTable[m.pageTable[vpn].frame := false]
            && ResidentCount(r.pageTable) == ResidentCount(m.pageTable) - 1
            && (forall p :: 0 <= p < |m.pageTable| && p != vpn ==>
                  r.pageTable[p].valid == m.pageTable[p].valid && r.pageTable[p].frame == m.pageTable[p].frame)
  {
    var k := FirstTranslation(m.tlb, vpn);
    var s := if k != -1 then Shootdown(m, k) else m;
    if k != -1 {
      ShootdownConsistent(m, k);
    }
    FramesIgnoreBits(m.pageTable, s.pageTable, m.frameTable);
    ReleaseKeepsTables(s.tlb, s.pageTable, s.frameTable, vpn);
  }

  /** An eviction counts one eviction, a shootdown exactly when the page was
      cached, and a disk write exactly when the page was modified, whether
      the modification was recorded in its row or only in its TLB entry. */
  lemma EvictCounters(m: Machine, vpn: nat)
    requires Consistent(m) && vpn < |m.pageTable| && m.pageTable[vpn].valid
    ensures Evict(m, vpn).stats == m.stats.(pageTableEvictions := m.stats.pageTableEvictions + 1,
                                            tlbShootDowns := m.stats.tlbShootDowns + Bit(FirstTranslation(m.tlb, vpn) != -1),
                                            hddWrites := m.stats.hddWrites + Bit(Modified(m, vpn)))
    ensures EvictCost(m, vpn) == Bit(FirstTranslation(m.tlb, vpn) != -1) + 10 * Bit(Modified(m, vpn))
  {
    var k := FirstTranslation(m.tlb, vpn);
    if k != -1 {
      assert Modified(m, vpn) <==> m.tlb[k].dirty by {
        if Modified(m, vpn) && !m.pageTable[vpn].dirty {
          var i :| 0 <= i < |m.tlb| && Translates(m.tlb[i], vpn) && m.tlb[i].dirty;
          assert !TagClash(m.tlb, i, k);
        }
      }
    }
  }

  /** After the first part of cache_page_in_RAM a frame is free, the tables
      are consistent and page `vpn` is still not resident. */
  lemma FreeFrameConsistent(m: Machine, victim: nat, vpn: nat)
    requires Consistent(m) && vpn < |m.pageTable| && !m.pageTable[vpn].valid
    requires MemoryFull(m.frameTable) ==> victim < |m.pageTable| && m.pageTable[victim].valid
    ensures var r := FreeFrame(m, victim);
            && Consistent(r)
            && !MemoryFull(r.frameTable)
            && !r.pageTable[vpn].valid
            && (MemoryFull(m.frameTable) ==> FirstUnset(r.frameTable) == m.pageTable[victim].frame)
  {
    if MemoryFull(m.frameTable) {
      EvictConsistent(m, victim);
      FirstUnsetOfCleared(m.frameTable, m.pageTable[victim].frame);
    }
  }

  /** Loading a page into a free frame keeps the tables consistent, raises
      the resident count by one and leaves the page uncached. */
  lemma LoadConsistent(m: Machine, vpn: nat, write: bool)
    requires Consistent(m) && vpn < |m.pageTable| && !m.pageTable[vpn].valid && !MemoryFull(m.frameTable)
    ensures Consistent(Load(m, vpn, write))
    ensures ResidentCount(Load(m, vpn, write).pageTable) == ResidentCount(m.pageTable) + 1
    ensures FirstTranslation(Load(m, vpn, write).tlb, vpn) == -1
  {
    var e := PageEntry(true, write, true, FirstUnset(m.frameTable));
    LoadKeepsFrames(m.pageTable, m.frameTable, vpn, e);
    NotResidentNotCached(m.tlb, m.pageTable, vpn);
    UncachedRowKeepsTlb(m.tlb, m.pageTable, vpn, e);
  }

  /** Loading a faulting page keeps the tables consistent and leaves the page
      resident, referenced, dirty exactly when the access writes, and not yet
      cached. */
  lemma LoadPageConsistent(m: Machine, vpn: nat, write: bool, victim: nat)
    requires Consistent(m) && vpn < |m.pageTable| && !m.pageTable[vpn].valid
    requires MemoryFull(m.frameTable) ==> victim < |m.pageTable| && m.pageTable[victim].valid
    ensures var r := LoadPage(m, vpn, write, victim);
            && Consistent(r)
            && r.pageTable[vpn] == PageEntry(true, write, true, r.pageTable[vpn].frame)
            && FirstTranslation(r.tlb, vpn) == -1
  {
    var m0 := m.(stats := m.stats.(hddReads := m.stats.hddReads + 1, pageTableWrites := m.stats.pageTableWrites + 1));
    FreeFrameConsistent(m0, victim, vpn);
    LoadConsistent(FreeFrame(m0, victim), vpn, write);
  }

  /** Loading a faulting page changes the TLB only through the eviction. */
  lemma LoadPageTlb(m: Machine, vpn: nat, write: bool, victim: nat)
    requires Consistent(m) && vpn < |m.pageTable| && !m.pageTable[vpn].valid
    requires MemoryFull(m.frameTable) ==> victim < |m.pageTable| && m.pageTable[victim].valid
    ensures LoadPage(m, vpn, write, victim).tlb == (if MemoryFull(m.frameTable) then Evict(m, victim).tlb else m.tlb)
  {
  }

  /** Loading a faulting page evicts a page exactly when every frame is
      allocated; the faulting page then takes the victim's frame, since that
      is the only free one.  Otherwise it takes the lowest free frame.  No
      other page moves. */
  lemma LoadPageFrames(m: Machine, vpn: nat, write: bool, victim: nat)
    requires Consistent(m) && vpn < |m.pageTable| && !m.pageTable[vpn].valid
    requires MemoryFull(m.frameTable) ==> victim < |m.pageTable| && m.pageTable[victim].valid
    ensures var r := LoadPage(m, vpn, write, victim);
            var full := ResidentCount(m.pageTable) == FRAMES;
            && MemoryFull(m.frameTable) == full
            && ResidentCount(r.pageTable) == (if full then FRAMES else ResidentCount(m.pageTable) + 1)
            && (!full ==> r.pageTable[vpn].frame == FirstUnset(m.frameTable))
            && (full ==> !r.pageTable[victim].valid && r.pageTable[vpn].frame == m.pageTable[victim].frame)
            && (forall p :: 0 <= p < |m.pageTable| && p != vpn && !(full && p == victim) ==>
                  r.pageTable[p].valid == m.pageTable[p].valid && r.pageTable[p].frame == m.pageTable[p].frame)
  {
    MemoryFullIffAllResident(m);
    if MemoryFull(m.frameTable) {
      LoadPageEvicting(m, vpn, write, victim);
      LoadPageEvictingCount(m, vpn, write, victim);
    } else {
      LoadPageNotEvicting(m, vpn, write, victim);
    }
  }

  /** With every frame allocated, the faulting page replaces the victim:
      it takes the victim's frame and no other page moves. */
  lemma LoadPageEvicting(m: Machine, vpn: nat, write: bool, victim: nat)
    requires Consistent(m) && vpn < |m.pageTable| && !m.pageTable[vpn].valid
    requires MemoryFull(m.frameTable) && victim < |m.pageTable| && m.pageTable[victim].valid
    ensures var r := LoadPage(m, vpn, write, victim);
            && !r.pageTable[victim].valid && r.pageTable[vpn].frame == m.pageTable[victim].frame
            && (forall p :: 0 <= p < |m.pageTable| && p != vpn && p != victim ==>
                  r.pageTable[p].valid == m.pageTable[p].valid && r.pageTable[p].frame == m.pageTable[p].frame)
  {
    var m0 := m.(stats := m.stats.(hddReads := m.stats.hddReads + 1, pageTableWrites := m.stats.pageTableWrites + 1));
    EvictConsistent(m0, victim);
    FirstUnsetOfCleared(m.frameTable, m.pageTable[victim].frame);
  }

  /** With every frame allocated, the resident count is unchanged by a
      fault: one page leaves and one arrives. */
  lemma LoadPageEvictingCount(m: Machine, vpn: nat, write: bool, victim: nat)
    requires Consistent(m) && vpn < |m.pageTable| && !m.pageTable[vpn].valid
    requires MemoryFull(m.frameTable) && victim < |m.pageTable| && m.pageTable[victim].valid
    ensures ResidentCount(LoadPage(m, vpn, write, victim).pageTable) == ResidentCount(m.pageTable)
  {
    var m0 := m.(stats := m.stats.(hddReads := m.stats.hddReads + 1, pageTableWrites := m.stats.pageTableWrites + 1));
    FreeFrameConsistent(m0, victim, vpn);
    EvictConsistent(m0, victim);
    LoadConsistent(Evict(m0, victim), vpn, write);
  }

  /** With a frame free, the faulting page takes the lowest free frame and
      the resident count goes up by one. */
  lemma LoadPageNotEvicting(m: Machine, vpn: nat, write: bool, victim: nat)
    requires Consistent(m) && vpn < |m.pageTable| && !m.pageTable[vpn].valid && !MemoryFull(m.frameTable)
    ensures var r := LoadPage(m, vpn, write, victim);
            && ResidentCount(r.pageTable) == ResidentCount(m.pageTable) + 1
            && r.pageTable[vpn].frame == FirstUnset(m.frameTable)
            && (forall p :: 0 <= p < |m.pageTable| && p != vpn ==> r.pageTable[p] == m.pageTable[p])
  {
    var m0 := m.(stats := m.stats.(hddReads := m.stats.hddReads + 1, pageTableWrites := m.stats.pageTableWrites + 1));
    LoadConsistent(m0, vpn, write);
  }

  /** Loading a faulting page counts one disk read and one page-table write;
      when it evicts, it counts one eviction, a shootdown exactly when the
      victim was cached and a disk write exactly when the victim was
      modified. */
  lemma LoadPageCounters(m: Machine, vpn: nat, write: bool, victim: nat)
    requires Consistent(m) && vpn < |m.pageTable| && !m.pageTable[vpn].valid
    requires MemoryFull(m.frameTable) ==> victim < |m.pageTable| && m.pageTable[victim].valid
    ensures var r := LoadPage(m, vpn, write, victim);
            var c := m.stats.(hddReads := m.stats.hddReads + 1, pageTableWrites := m.stats.pageTableWrites + 1);
            var full := MemoryFull(m.frameTable);
            r.stats == c.(pageTableEvictions := c.pageTableEvictions + Bit(full),
                          tlbShootDowns := c.tlbShootDowns + Bit(full && FirstTranslation(m.tlb, victim) != -1),
                          hddWrites := c.hddWrites + Bit(full && Modified(m, victim)))
  {
    var m0 := m.(stats := m.stats.(hddReads := m.stats.hddReads + 1, pageTableWrites := m.stats.pageTableWrites + 1));
    if MemoryFull(m.frameTable) {
      EvictCounters(m0, victim);
      assert Modified(m0, victim) == Modified(m, victim) by {
        assert m0.tlb == m.tlb && m0.pageTable == m.pageTable;
      }
      assert LoadPage(m, vpn, write, victim).stats == Evict(m0, victim).stats;
    }
  }

  /** Serving a fault keeps the tables consistent and leaves the page
      resident, referenced, dirty exactly when the access writes, and cached
      with those bits. */
  lemma CachePageConsistent(m: Machine, vpn: nat, write: bool, victim: nat, k: nat)
    requires Consistent(m) && vpn < |m.pageTable| && !m.pageTable[vpn].valid
    requires MemoryFull(m.frameTable) ==> victim < |m.pageTable| && m.pageTable[victim].valid
    requires k < TLB_SIZE
    ensures var r := CachePage(m, vpn, write, victim, k);
            && Consistent(r)
            && r.pageTable[vpn] == PageEntry(true, write, true, r.pageTable[vpn].frame)
            && FirstTranslation(r.tlb, vpn) != -1
            && r.tlb[FirstTranslation(r.tlb, vpn)] == Translation(vpn, r.pageTable[vpn])
  {
    LoadPageConsistent(m, vpn, write, victim);
    CacheTranslationConsistent(LoadPage(m, vpn, write, victim), vpn, k);
  }

  /** Serving a fault moves pages exactly as loading the page does: caching
      the translation moves none. */
  lemma CachePageFrames(m: Machine, vpn: nat, write: bool, victim: nat, k: nat)
    requires Consistent(m) && vpn < |m.pageTable| && !m.pageTable[vpn].valid
    requires MemoryFull(m.frameTable) ==> victim < |m.pageTable| && m.pageTable[victim].valid
    requires k < TLB_SIZE
    ensures var l := LoadPage(m, vpn, write, victim);
            var r := CachePage(m, vpn, write, victim, k);
            && SameResidency(l.pageTable, r.pageTable)
            && ResidentCount(r.pageTable) == ResidentCount(l.pageTable)
            && r.frameTable == l.frameTable
  {
    LoadPageConsistent(m, vpn, write, victim);
    var l := LoadPage(m, vpn, write, victim);
    CacheTranslationConsistent(l, vpn, k);
    FramesIgnoreBits(l.pageTable, CachePage(m, vpn, write, victim, k).pageTable, l.frameTable);
  }

  /** A fault counts one disk read, one page-table write and one TLB write;
      one eviction exactly when every frame was allocated; at most one disk
      write, and only with an eviction; at most two shootdowns. */
  lemma CachePageCounters(m: Machine, vpn: nat, write: bool, victim: nat, k: nat)
    requires Consistent(m) && vpn < |m.pageTable| && !m.pageTable[vpn].valid
    requires MemoryFull(m.frameTable) ==> victim < |m.pageTable| && m.pageTable[victim].valid
    requires k < TLB_SIZE
    ensures var r := CachePage(m, vpn, write, victim, k);
            var evicts := MemoryFull(m.frameTable);
            && r.stats == m.stats.(hddReads := m.stats.hddReads + 1,
                                   pageTableWrites := m.stats.pageTableWrites + 1,
                                   tlbWrites := m.stats.tlbWrites + 1,
                                   pageTableEvictions := m.stats.pageTableEvictions + Bit(evicts),
                                   hddWrites := r.stats.hddWrites,
                                   tlbShootDowns := r.stats.tlbShootDowns)
            && m.stats.hddWrites <= r.stats.hddWrites <= m.stats.hddWrites + Bit(evicts)
            && m.stats.tlbShootDowns <= r.stats.tlbShootDowns <= m.stats.tlbShootDowns + 1 + Bit(evicts)
  {
    LoadPageCounters(m, vpn, write, victim);
    CachePageAfterLoad(m, vpn, write, victim, k);
  }

  /** Serving a fault counts, on top of loading the page, one TLB write and
      a shootdown exactly when the TLB was then full. */
  lemma CachePageAfterLoad(m: Machine, vpn: nat, write: bool, victim: nat, k: nat)
    requires Consistent(m) && vpn < |m.pageTable| && !m.pageTable[vpn].valid
    requires MemoryFull(m.frameTable) ==> victim < |m.pageTable| && m.pageTable[victim].valid
    requires k < TLB_SIZE
    ensures var l := LoadPage(m, vpn, write, victim);
            CachePage(m, vpn, write, victim, k).stats ==
              l.stats.(tlbWrites := l.stats.tlbWrites + 1, tlbShootDowns := l.stats.tlbShootDowns + Bit(TlbFull(l.tlb)))
  {
    LoadPageTags(m, vpn, write, victim);
    CacheTranslationCounters(LoadPage(m, vpn, write, victim), vpn, k);
  }

  /** After loading a faulting page every valid TLB entry still names a
      page of the table. */
  lemma LoadPageTags(m: Machine, vpn: nat, write: bool, victim: nat)
    requires Consistent(m) && vpn < |m.pageTable| && !m.pageTable[vpn].valid
    requires MemoryFull(m.frameTable) ==> victim < |m.pageTable| && m.pageTable[victim].valid
    ensures var l := LoadPage(m, vpn, write, victim);
            |l.tlb| == TLB_SIZE && forall i :: 0 <= i < |l.tlb| && l.tlb[i].valid ==> l.tlb[i].vpn < |l.pageTable|
  {
    LoadPageConsistent(m, vpn, write, victim);
  }

  /** Clearing the reference bits keeps the tables consistent, leaves no R
      bit set and changes nothing else. */
  lemma ResetReferencesConsistent(m: Machine)
    requires Consistent(m)
    ensures var r := ResetReferences(m);
            && Consistent(r)
            && (forall i :: 0 <= i < |r.tlb| ==> !r.tlb[i].referenced)
            && (forall p :: 0 <= p < |r.pageTable| ==> !r.pageTable[p].referenced)
            && |r.tlb| == |m.tlb| && |r.pageTable| == |m.pageTable|
            && (forall i :: 0 <= i < |m.tlb| ==> r.tlb[i] == m.tlb[i].(referenced := false))
            && (forall p :: 0 <= p < |m.pageTable| ==> r.pageTable[p] == m.pageTable[p].(referenced := false))
            && SameResidency(m.pageTable, r.pageTable)
            && r.frameTable == m.frameTable && r.stats == m.stats
  {
    var r := ResetReferences(m);
    ClearReferencedKeepsTlb(m.tlb, m.pageTable, r.tlb, r.pageTable);
    FramesIgnoreBits(m.pageTable, r.pageTable, m.frameTable);
  }

  /** As written, a write that misses the TLB on a resident, unmodified page
      is not recorded: the page is still unmodified afterwards, and its new
      entry carries the page's old bits.  The corrected access records it. */
  lemma AccessAsWrittenLosesWrite(m: Machine, address: nat, victim: nat, k: nat)
    requires Consistent(m) && address / PAGE_SIZE < |m.pageTable|
    requires m.pageTable[address / PAGE_SIZE].valid && !Modified(m, address / PAGE_SIZE)
    requires FirstTranslation(m.tlb, address / PAGE_SIZE) == -1 && k < TLB_SIZE
    ensures var vpn := address / PAGE_SIZE;
            var r := AccessAsWritten(m, address, true, victim, k);
            && !Modified(r, vpn)
            && FirstTranslation(r.tlb, vpn) != -1
            && r.tlb[FirstTranslation(r.tlb, vpn)] == Translation(vpn, m.pageTable[vpn])
    ensures Modified(Access(m, address, true, victim, k), address / PAGE_SIZE)
  {
    var vpn := address / PAGE_SIZE;
    var m' := m.(stats := CountTableHit(m.stats));
    CacheTranslationConsistent(m', vpn, k);
    AccessConsistent(m, address, true, victim, k);
    var r := CacheTranslation(m', vpn, k);
    var j := FirstTranslation(r.tlb, vpn);
    forall i | 0 <= i < |r.tlb| && Translates(r.tlb[i], vpn) ensures !r.tlb[i].dirty {
      assert !TagClash(r.tlb, i, j);
    }
  }

  /** The state the lost write needs arises in a run: a read that misses
      the TLB on a resident page, with the TLB full, may draw a clean entry
      for the shootdown; the page that entry cached is then resident, clean
      and uncached, which is what `AccessAsWrittenLosesWrite` requires. */
  lemma LostWriteReached(m: Machine, address: nat, victim: nat, k: nat)
    requires Consistent(m) && address / PAGE_SIZE < |m.pageTable|
    requires m.pageTable[address / PAGE_SIZE].valid && FirstTranslation(m.tlb, address / PAGE_SIZE) == -1
    requires TlbFull(m.tlb) && k < |m.tlb| && ShootdownChoice(m.tlb, k) && !m.tlb[k].dirty
    ensures var r := AccessAsWritten(m, address, false, victim, k);
            var q := m.tlb[k].vpn;
            && q < |r.pageTable| && q != address / PAGE_SIZE
            && Consistent(r) && r.pageTable[q].valid && !Modified(r, q)
            && FirstTranslation(r.tlb, q) == -1
  {
    var vpn := address / PAGE_SIZE;
    var m' := m.(stats := CountTableHit(m.stats));
    assert m.tlb[k].valid;
    CacheTranslationShootdown(m', vpn, k);
    var r := CacheTranslation(m', vpn, k);
    var q := m.tlb[k].vpn;
    forall i | 0 <= i < |r.tlb| ensures !Translates(r.tlb[i], q) {
      if i != k {
        assert !TagClash(m.tlb, i, k);
      }
    }
  }

  /** As written, every access keeps the tables consistent and leaves the
      page resident and cached, and it ends with the same page table, frame
      table and counters as the corrected access: the two differ only in the
      marks on the entry of the accessed page. */
  lemma AccessAsWrittenConsistent(m: Machine, address: nat, write: bool, victim: nat, k: nat)
    requires Consistent(m) && address / PAGE_SIZE < |m.pageTable|
    requires !m.pageTable[address / PAGE_SIZE].valid && MemoryFull(m.frameTable) ==>
               victim < |m.pageTable| && m.pageTable[victim].valid
    requires k < TLB_SIZE
    ensures var r := AccessAsWritten(m, address, write, victim, k);
            var a := Access(m, address, write, victim, k);
            var vpn := address / PAGE_SIZE;
            && Consistent(r)
            && r.pageTable[vpn].valid
            && FirstTranslation(r.tlb, vpn) != -1
            && r.pageTable == a.pageTable && r.frameTable == a.frameTable && r.stats == a.stats
            && |r.tlb| == |a.tlb|
            && (forall i :: 0 <= i < |r.tlb| && i != FirstTranslation(r.tlb, vpn) ==> r.tlb[i] == a.tlb[i])
  {
    var vpn := address / PAGE_SIZE;
    if FirstTranslation(m.tlb, vpn) != -1 || !m.pageTable[vpn].valid {
      AccessConsistent(m, address, write, victim, k);
    } else {
      CacheTranslationConsistent(m.(stats := CountTableHit(m.stats)), vpn, k);
    }
  }

  /** Every access keeps the tables consistent and leaves the page resident
      and cached, its entry referenced and, on a write, dirty. */
  lemma AccessConsistent(m: Machine, address: nat, write: bool, victim: nat, k: nat)
    requires Consistent(m) && address / PAGE_SIZE < |m.pageTable|
    requires !m.pageTable[address / PAGE_SIZE].valid && MemoryFull(m.frameTable) ==>
               victim < |m.pageTable| && m.pageTable[victim].valid
    requires k < TLB_SIZE
    ensures var r := Access(m, address, write, victim, k);
            var vpn := address / PAGE_SIZE;
            && Consistent(r)
            && r.pageTable[vpn].valid
            && FirstTranslation(r.tlb, vpn) != -1
            && r.tlb[FirstTranslation(r.tlb, vpn)].referenced
            && (write ==> Modified(r, vpn))
  {
    var vpn := address / PAGE_SIZE;
    var i := FirstTranslation(m.tlb, vpn);
    if i != -1 {
      TouchKeepsTlb(m.tlb, m.pageTable, i, write);
      FirstTranslationAt(m.tlb[i := Touched(m.tlb[i], write)], vpn, i);
    } else if !m.pageTable[vpn].valid {
      CachePageConsistent(m.(stats := CountFault(m.stats)), vpn, write, victim, k);
    } else {
      CacheAndTouchConsistent(m.(stats := CountTableHit(m.stats)), vpn, write, k);
    }
  }

  /** The corrected miss on a resident page keeps the tables consistent and
      leaves the page cached by an entry that carries the page's own bits,
      marked as a hit marks it. */
  lemma CacheAndTouchConsistent(m: Machine, vpn: nat, write: bool, k: nat)
    requires Consistent(m) && vpn < |m.pageTable| && m.pageTable[vpn].valid
    requires FirstTranslation(m.tlb, vpn) == -1 && k < TLB_SIZE
    ensures var r := CacheAndTouch(m, vpn, write, k);
            var j := FirstTranslation(r.tlb, vpn);
            && Consistent(r)
            && r.pageTable[vpn].valid
            && j != -1
            && r.tlb[j] == Touched(Translation(vpn, m.pageTable[vpn]), write)
  {
    CacheTranslationConsistent(m, vpn, k);
    var r := CacheTranslation(m, vpn, k);
    var j := FirstTranslation(r.tlb, vpn);
    TouchKeepsTlb(r.tlb, r.pageTable, j, write);
    FirstTranslationAt(r.tlb[j := Touched(r.tlb[j], write)], vpn, j);
  }

  /** Every access counts exactly one TLB hit or one TLB miss, a miss is one
      page-table access that is a hit or a fault, and the conservation laws
      among the counters are kept. */
  lemma AccessCounters(m: Machine, address: nat, write: bool, victim: nat, k: nat)
    requires Consistent(m) && address / PAGE_SIZE < |m.pageTable|
    requires !m.pageTable[address / PAGE_SIZE].valid && MemoryFull(m.frameTable) ==>
               victim < |m.pageTable| && m.pageTable[victim].valid
    requires k < TLB_SIZE
    ensures var r := Access(m, address, write, victim, k);
            var vpn := address / PAGE_SIZE;
            var hit := FirstTranslation(m.tlb, vpn) != -1;
            var fault := !hit && !m.pageTable[vpn].valid;
            && r.stats.tlbHits == m.stats.tlbHits + Bit(hit)
            && r.stats.tlbMisses == m.stats.tlbMisses + Bit(!hit)
            && r.stats.pageFaults == m.stats.pageFaults + Bit(fault)
            && r.stats.pageTableHits == m.stats.pageTableHits + Bit(!hit && !fault)
            && (Balanced(m.stats) ==> Balanced(r.stats))
  {
    var vpn := address / PAGE_SIZE;
    var i := FirstTranslation(m.tlb, vpn);
    if i == -1 {
      if !m.pageTable[vpn].valid {
        CachePageCounters(m.(stats := CountFault(m.stats)), vpn, write, victim, k);
      } else {
        CacheTranslationConsistent(m.(stats := CountTableHit(m.stats)), vpn, k);
      }
    }
  }

  /** A TLB hit touches only the hit entry and the hit counter: no
      page-table or frame activity. */
  lemma AccessHit(m: Machine, address: nat, write: bool, victim: nat, k: nat)
    requires Consistent(m) && address / PAGE_SIZE < |m.pageTable|
    requires FirstTranslation(m.tlb, address / PAGE_SIZE) != -1
    requires k < TLB_SIZE
    ensures var r := Access(m, address, write, victim, k);
            var i := FirstTranslation(m.tlb, address / PAGE_SIZE);
            && r.pageTable == m.pageTable && r.frameTable == m.frameTable
            && (forall j :: 0 <= j < |m.tlb| && j != i ==> r.tlb[j] == m.tlb[j])
            && r.tlb[i] == m.tlb[i].(referenced := true, dirty := m.tlb[i].dirty || write)
            && r.tlb[i].valid && r.tlb[i].vpn == address / PAGE_SIZE
            && r.stats == m.stats.(tlbHits := m.stats.tlbHits + 1)
  {
  }
}
