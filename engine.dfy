/** The translation and replacement engine of the virtual-memory simulator.
    The TLB, the page table and the frame table are fixed-size arrays that the
    methods update in place, as the C functions do; the counters are one
    `Counters` value.  Each C function is one method of `Engine` (a few are
    split into two), and each state-changing method is proved to make exactly
    the transition that a function of `Transitions` describes. */
module VirtualMemory {
  import opened Occupancy
  import opened Statistics
  import opened Tables
  import opened Transitions

  class Engine {
    const tlb: array<TlbEntry>
    const pageTable: array<PageEntry>
    const frameTable: array<bool>
    var stats: Counters

    /** The tables and counters as one value. */
    ghost function State(): Machine
      reads this, tlb, pageTable, frameTable
    {
      Machine(tlb[..], pageTable[..], frameTable[..], stats)
    }

    /** The tables are consistent in the sense of `Transitions.Consistent`. */
    ghost predicate Valid()
      reads this, tlb, pageTable, frameTable
    {
      Consistent(State())
    }

    /** The zero-filled tables and counters a run starts from. */
    constructor ()
      ensures fresh(tlb) && fresh(pageTable) && fresh(frameTable)
      ensures Empty(State()) && stats == NoCounters
      ensures Valid() && Balanced(stats)
    {
      tlb := new TlbEntry[TLB_SIZE](_ => EmptyTlbEntry);
      pageTable := new PageEntry[VPAGES](_ => EmptyPageEntry);
      frameTable := new bool[FRAMES](_ => false);
      stats := NoCounters;
      new;
      EmptyConsistent(State());
    }

    /** resetGlobals: zero every counter; the tables are left as they are. */
    method ResetGlobals()
      modifies this
      ensures State() == old(State()).(stats := NoCounters)
      ensures Balanced(stats)
      ensures old(Valid()) ==> Valid()
    {
      stats := NoCounters;
    }

    /** TLB_lookup: the lowest index of a valid entry tagged `vpn`, or -1. */
    method TlbLookup(vpn: nat) returns (index: int)
      ensures index == FirstTranslation(tlb[..], vpn)
    {
      var i := 0;
      while i < tlb.Length
        invariant 0 <= i <= tlb.Length
        invariant forall j :: 0 <= j < i ==> !Translates(tlb[j], vpn)
      {
        if tlb[i].vpn == vpn && tlb[i].valid {
          FirstTranslationAt(tlb[..], vpn, i);
          return i;
        }
        i := i + 1;
      }
      return -1;
    }

    /** get_available_TLB_entry: claim the lowest entry whose V bit is clear by
        setting its V bit, or return -1 and change nothing if all are valid. */
    method GetAvailableTlbEntry() returns (index: int)
      modifies tlb
      ensures index == FirstUnset(Occupied(old(tlb[..])))
      ensures index == -1 ==> tlb[..] == old(tlb[..])
      ensures index != -1 ==> tlb[..] == old(tlb[..])[index := old(tlb[index]).(valid := true)]
    {
      var i := 0;
      while i < tlb.Length
        invariant 0 <= i <= tlb.Length
        invariant tlb[..] == old(tlb[..])
        invariant forall j :: 0 <= j < i ==> tlb[j].valid
      {
        if !tlb[i].valid {
          tlb[i] := tlb[i].(valid := true);
          return i;
        }
        i := i + 1;
      }
      return -1;
    }

    /** select_TLB_shootdown_candidate: if some valid entry has R clear, one of
        those (the C code samples indices at random until it hits one);
        otherwise any index at all. */
    method SelectTlbShootdownCandidate() returns (index: int)
      requires tlb.Length > 0
      ensures 0 <= index < tlb.Length
      ensures (exists i :: 0 <= i < tlb.Length && Unreferenced(tlb[i])) ==> Unreferenced(tlb[index])
    {
      var ref0 := false;
      var i := 0;
      while i < tlb.Length
        invariant 0 <= i <= tlb.Length
        invariant ref0 <==> exists j :: 0 <= j < i && Unreferenced(tlb[j])
      {
        if !tlb[i].referenced && tlb[i].valid {
          ref0 := true;
        }
        i := i + 1;
      }
      if ref0 {
        index :| 0 <= index < tlb.Length && Unreferenced(tlb[index]);
      } else {
        index :| 0 <= index < tlb.Length;
      }
    }

    /** TLB_shootdown: clear the entry's V bit and copy its D and R bits into
        the row of the page it translates. */
    method TlbShootdown(index: int)
      requires Valid() && 0 <= index < tlb.Length && tlb[index].valid
      modifies tlb, pageTable, this
      ensures State() == Shootdown(old(State()), index)
      ensures Valid()
    {
      ghost var m := State();
      ShootdownConsistent(m, index);
      var tag := tlb[index].vpn;
      stats := stats.(tlbShootDowns := stats.tlbShootDowns + 1);
      tlb[index] := tlb[index].(valid := false);
      pageTable[tag] := pageTable[tag].(dirty := tlb[index].dirty, referenced := tlb[index].referenced);
      assert tlb[..] == Shootdown(m, index).tlb;
      assert pageTable[..] == Shootdown(m, index).pageTable;
    }

    /** cache_translation_in_TLB: copy page `vpn`'s translation into the first
        free TLB entry, or, when every entry is valid, shoot down a candidate
        and reuse its entry.  Returns 1 if a shootdown happened, else 0; the
        ghost `k` is the candidate drawn (any index when none was needed). */
    method CacheTranslationInTlb(vpn: nat) returns (shotDown: int, ghost k: nat)
      requires Valid() && vpn < VPAGES && pageTable[vpn].valid
      requires FirstTranslation(tlb[..], vpn) == -1
      modifies tlb, pageTable, this
      ensures ShootdownChoice(old(tlb[..]), k)
      ensures State() == CacheTranslation(old(State()), vpn, k)
      ensures shotDown == Bit(TlbFull(old(tlb[..])))
      ensures Valid()
    {
      ghost var m := State();
      stats := stats.(tlbWrites := stats.tlbWrites + 1);
      var index := GetAvailableTlbEntry();
      if index != -1 {
        var page := pageTable[vpn];
        tlb[index] := tlb[index].(dirty := page.dirty, referenced := page.referenced, vpn := vpn, frame := page.frame);
        shotDown, k := 0, 0;
        assert tlb[..] == m.tlb[index := Translation(vpn, page)];
      } else {
        index := SelectTlbShootdownCandidate();
        k := index;
        TlbShootdown(index);
        var page := pageTable[vpn];
        tlb[index] := TlbEntry(true, page.dirty, page.referenced, vpn, page.frame);
        shotDown := 1;
      }
      CacheTranslationConsistent(m, vpn, k);
    }

    /** get_available_frame: mark the lowest free frame occupied and return
        it, or return -1 and change nothing if every frame is occupied. */
    method GetAvailableFrame() returns (frame: int)
      modifies frameTable
      ensures frame == FirstUnset(old(frameTable[..]))
      ensures frame == -1 ==> frameTable[..] == old(frameTable[..])
      ensures frame != -1 ==> frameTable[..] == old(frameTable[..])[frame := true]
    {
      var i := 0;
      while i < frameTable.Length
        invariant 0 <= i <= frameTable.Length
        invariant frameTable[..] == old(frameTable[..])
        invariant forall f :: 0 <= f < i ==> frameTable[f]
      {
        if !frameTable[i] {
          frameTable[i] := true;
          return i;
        }
        i := i + 1;
      }
      return -1;
    }

    /** search_PageTable_by_VDR: -1 if no page-table row has exactly the bits
        (v, d, r); otherwise one of the matching rows (the C code collects
        them and picks one at random). */
    method SearchPageTableByVdr(v: bool, d: bool, r: bool) returns (result: int)
      ensures -1 <= result < pageTable.Length
      ensures result == -1 <==> forall p :: 0 <= p < pageTable.Length ==> !HasBits(pageTable[p], v, d, r)
      ensures result != -1 ==> HasBits(pageTable[result], v, d, r)
    {
      var candidates: seq<nat> := [];
      var i := 0;
      while i < pageTable.Length
        invariant 0 <= i <= pageTable.Length
        invariant forall j :: 0 <= j < |candidates| ==> candidates[j] < i && HasBits(pageTable[candidates[j]], v, d, r)
        invariant forall p :: 0 <= p < i && HasBits(pageTable[p], v, d, r) ==> p in candidates
      {
        if pageTable[i].valid == v && pageTable[i].dirty == d && pageTable[i].referenced == r {
          candidates := candidates + [i];
        }
        i := i + 1;
      }
      if |candidates| == 0 {
        return -1;
      }
      var j :| 0 <= j < |candidates|;
      result := candidates[j];
    }

    /** select_page_eviction_candidate: a resident page from the first
        non-empty class in the order VDR 100, 110, 101, 111.  The C code falls
        off its end when no page is resident; that case is excluded here. */
    method SelectPageEvictionCandidate() returns (candidate: int)
      requires exists p :: 0 <= p < pageTable.Length && pageTable[p].valid
      ensures EvictionChoice(pageTable[..], candidate)
    {
      candidate := SearchPageTableByVdr(true, false, false);
      if candidate != -1 {
        return;
      }
      candidate := SearchPageTableByVdr(true, true, false);
      if candidate != -1 {
        return;
      }
      candidate := SearchPageTableByVdr(true, false, true);
      if candidate != -1 {
        return;
      }
      candidate := SearchPageTableByVdr(true, true, true);
    }

    /** page_evict: shoot down the page's TLB entry if it has one, count a
        disk write if the page is then dirty, free its frame and clear its V
        bit.  Returns 1 for a shootdown plus 10 for a disk write. */
    method PageEvict(vpn: nat) returns (total: int)
      requires Valid() && vpn < VPAGES && pageTable[vpn].valid
      modifies tlb, pageTable, frameTable, this
      ensures State() == Evict(old(State()), vpn)
      ensures total == EvictCost(old(State()), vpn)
      ensures Valid()
    {
      EvictConsistent(State(), vpn);
      total := 0;
      var index := TlbLookup(vpn);
      if index != -1 {
        TlbShootdown(index);
        total := 1;
      }
      if pageTable[vpn].dirty {
        total := total + 10;
      }
      ReleasePage(vpn);
    }

    /** The end of page_evict: count the eviction and the disk write of a
        dirty page, free the page's frame and clear its V bit. */
    method ReleasePage(vpn: nat)
      requires vpn < pageTable.Length && pageTable[vpn].frame < frameTable.Length
      modifies pageTable, frameTable, this
      ensures State() == Release(old(State()), vpn)
    {
      var page := pageTable[vpn];
      // The C code counts the eviction on entry to page_evict, before the
      // shootdown; only the order of the increments differs.
      stats := stats.(pageTableEvictions := stats.pageTableEvictions + 1, hddWrites := stats.hddWrites + Bit(page.dirty));
      frameTable[page.frame] := false;
      pageTable[vpn] := page.(valid := false);
    }

    /** The branch of cache_page_in_RAM taken when every frame is allocated:
        select the page to evict, evict it, and claim the frame it frees. */
    method EvictForFrame() returns (frame: int, ghost victim: nat)
      requires Valid() && MemoryFull(frameTable[..])
      modifies tlb, pageTable, frameTable, this
      ensures EvictionChoice(old(pageTable[..]), victim)
      ensures frame == old(pageTable[victim]).frame
      ensures var e := Evict(old(State()), victim);
              frame == FirstUnset(e.frameTable) && State() == e.(frameTable := e.frameTable[frame := true])
    {
      ghost var m := State();
      FullMemoryHasResidentPage(m.pageTable, m.frameTable);
      var candidate := SelectPageEvictionCandidate();
      victim := candidate;
      var _ := PageEvict(candidate);
      EvictConsistent(m, victim);
      ghost var f := m.pageTable[victim].frame;
      ghost var ft := frameTable[..];
      assert forall g :: 0 <= g < |ft| ==> ft[g] == (g != f);
      assert !ft[f];
      frame := GetAvailableFrame();
      assert frame == f;
    }

    /** The first part of cache_page_in_RAM: claim the lowest free frame,
        evicting a page first when none is free.  The ghost `victim` is the
        eviction candidate drawn (any page when none was needed). */
    method ClaimFrame() returns (frame: int, ghost victim: nat)
      requires Valid()
      modifies tlb, pageTable, frameTable, this
      ensures 0 <= frame < frameTable.Length
      ensures MemoryFull(old(frameTable[..])) ==> EvictionChoice(old(pageTable[..]), victim)
      ensures var e := FreeFrame(old(State()), victim);
              frame == FirstUnset(e.frameTable) && State() == e.(frameTable := e.frameTable[frame := true])
    {
      frame := GetAvailableFrame();
      if frame == -1 {
        frame, victim := EvictForFrame();
      } else {
        victim := 0;
      }
    }

    /** The first two parts of cache_page_in_RAM: count the disk read and
        the page-table write, claim a frame (evicting a page when none is
        free) and place page `vpn` in it.  The ghost `victim` is the eviction
        candidate drawn. */
    method LoadIntoRam(vpn: nat, write: bool) returns (ghost victim: nat)
      requires Valid() && vpn < VPAGES && !pageTable[vpn].valid
      modifies pageTable, frameTable, tlb, this
      ensures MemoryFull(old(frameTable[..])) ==> EvictionChoice(old(pageTable[..]), victim)
      ensures State() == LoadPage(old(State()), vpn, write, victim)
      ensures Valid()
    {
      ghost var m := State();
      stats := stats.(hddReads := stats.hddReads + 1, pageTableWrites := stats.pageTableWrites + 1);
      ghost var m0 := State();
      assert m0 == m.(stats := m0.stats);
      var frame;
      frame, victim := ClaimFrame();
      ghost var e := FreeFrame(m0, victim);
      pageTable[vpn] := PageEntry(true, write, true, frame);
      assert State() == Load(e, vpn, write);
      LoadPageConsistent(m, vpn, write, victim);
    }

    /** cache_page_in_RAM: load page `vpn` (not resident, hence not cached)
        into the lowest free frame, evicting a page first when none is free,
        and cache its translation.  The ghost `victim` and `k` are the
        eviction and shootdown candidates drawn. */
    method CachePageInRam(vpn: nat, write: bool) returns (ghost victim: nat, ghost k: nat)
      requires Valid() && vpn < VPAGES && !pageTable[vpn].valid
      modifies tlb, pageTable, frameTable, this
      ensures MemoryFull(old(frameTable[..])) ==> victim < VPAGES && old(pageTable[victim]).valid
      ensures k < TLB_SIZE
      ensures CachePageChoices(old(State()), victim, k)
      ensures State() == CachePage(old(State()), vpn, write, victim, k)
      ensures Valid()
    {
      ghost var m := State();
      victim := LoadIntoRam(vpn, write);
      LoadPageConsistent(m, vpn, write, victim);
      LoadPageTlb(m, vpn, write, victim);
      var _, drawn := CacheTranslationInTlb(vpn);
      k := drawn;
    }

    /** reset_reference_bits: clear the R bit of every TLB entry and every
        page-table row. */
    method ResetReferenceBits()
      requires Valid()
      modifies tlb, pageTable
      ensures State() == ResetReferences(old(State()))
      ensures Valid()
    {
      ResetReferencesConsistent(State());
      var i := 0;
      while i < tlb.Length
        modifies tlb
        invariant 0 <= i <= tlb.Length
        invariant forall j :: 0 <= j < i ==> tlb[j] == old(tlb[j]).(referenced := false)
        invariant forall j :: i <= j < tlb.Length ==> tlb[j] == old(tlb[j])
      {
        tlb[i] := tlb[i].(referenced := false);
        i := i + 1;
      }
      i := 0;
      while i < pageTable.Length
        modifies pageTable
        invariant 0 <= i <= pageTable.Length
        invariant forall j :: 0 <= j < i ==> pageTable[j] == old(pageTable[j]).(referenced := false)
        invariant forall j :: i <= j < pageTable.Length ==> pageTable[j] == old(pageTable[j])
      {
        pageTable[i] := pageTable[i].(referenced := false);
        i := i + 1;
      }
    }

    /** The hit path of memory_access: mark entry `index` referenced, and
        dirty on a write. */
    method TouchEntry(index: int, write: bool)
      requires Valid() && 0 <= index < tlb.Length && tlb[index].valid
      modifies tlb
      ensures State() == old(State()).(tlb := old(tlb[..])[index := Touched(old(tlb[index]), write)])
      ensures Valid()
    {
      TouchKeepsTlb(tlb[..], pageTable[..], index, write);
      if write {
        tlb[index] := tlb[index].(dirty := true);
      }
      tlb[index] := tlb[index].(referenced := true);
    }

    /** The miss on a resident page, corrected: cache_translation_in_TLB,
        then mark the new entry as a hit marks it. */
    method CacheAndTouchEntry(vpn: nat, write: bool) returns (ghost k: nat)
      requires Valid() && vpn < VPAGES && pageTable[vpn].valid
      requires FirstTranslation(tlb[..], vpn) == -1
      modifies tlb, pageTable, this
      ensures k < TLB_SIZE && ShootdownChoice(old(tlb[..]), k)
      ensures State() == CacheAndTouch(old(State()), vpn, write, k)
      ensures Valid()
    {
      ghost var m := State();
      var _, drawn := CacheTranslationInTlb(vpn);
      k := drawn;
      CacheTranslationConsistent(m, vpn, k);
      var index := TlbLookup(vpn);
      TouchEntry(index, write);
    }

    /** memory_access: translate one access to `address` (a write when
        `write`) and update the tables and the counters.  After a miss on a
        resident page the new entry is marked as a hit marks it (see
        `Transitions.Access`). */
    method MemoryAccess(address: nat, write: bool) returns (ghost victim: nat, ghost k: nat)
      requires Valid() && address / PAGE_SIZE < VPAGES
      modifies tlb, pageTable, frameTable, this
      ensures !old(pageTable[address / PAGE_SIZE]).valid && MemoryFull(old(frameTable[..])) ==>
                victim < VPAGES && old(pageTable[victim]).valid
      ensures k < TLB_SIZE
      ensures AccessChoices(old(State()), address, victim, k)
      ensures State() == Access(old(State()), address, write, victim, k)
      ensures Valid()
    {
      ghost var m := State();
      var vpn := address / PAGE_SIZE;
      var index := TlbLookup(vpn);
      if index != -1 {
        stats := stats.(tlbHits := stats.tlbHits + 1);
        TouchEntry(index, write);
        victim, k := 0, 0;
      } else if !pageTable[vpn].valid {
        stats := CountFault(stats);
        victim, k := CachePageInRam(vpn, write);
      } else {
        stats := CountTableHit(stats);
        k := CacheAndTouchEntry(vpn, write);
        victim := 0;
      }
    }
  }
}
