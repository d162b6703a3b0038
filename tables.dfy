/** The rows of the TLB and of the page table, the bookkeeping invariants that
    tie the TLB, the page table and the frame table together, and the lemmas
    that each kind of update the engine makes keeps those invariants.

    The C program keeps each TLB row as five unsigned integers (V, D, R, tag,
    frame) and each page-table row as four (V, D, R, frame); here a row is a
    record with named fields.  The C code only ever stores 0 or 1 in the V, D
    and R columns and in the frame table, so those are booleans. */
module Tables {
  import opened Occupancy

  const VPAGES: nat := 1024
  const TLB_SIZE: nat := 8
  const FRAMES: nat := 256
  const PAGE_SIZE: nat := 1024

  /** One TLB row: valid, dirty and referenced bits, the virtual page it
      translates (the tag) and the frame it maps to. */
  datatype TlbEntry = TlbEntry(valid: bool, dirty: bool, referenced: bool, vpn: nat, frame: nat)

  /** One page-table row: valid (resident), dirty and referenced bits and the
      frame the page occupies; the frame is meaningful only while valid. */
  datatype PageEntry = PageEntry(valid: bool, dirty: bool, referenced: bool, frame: nat)

  const EmptyTlbEntry := TlbEntry(false, false, false, 0, 0)
  const EmptyPageEntry := PageEntry(false, false, false, 0)

  /** A TLB entry that currently translates `vpn`. */
  predicate Translates(e: TlbEntry, vpn: nat) { e.valid && e.vpn == vpn }

  /** A candidate for the random shootdown choice: valid and not referenced. */
  predicate Unreferenced(e: TlbEntry) { e.valid && !e.referenced }

  predicate HasBits(p: PageEntry, v: bool, d: bool, r: bool)
  {
    p.valid == v && p.dirty == d && p.referenced == r
  }

  /** Position of a page's D and R bits in the replacement order:
      VDR 100 first, then 110, 101 and 111. */
  function EvictionRank(p: PageEntry): nat
  {
    (if p.referenced then 2 else 0) + (if p.dirty then 1 else 0)
  }

  /** Page `v` is resident and no resident page comes before it in the
      replacement order: a choice the eviction selector may make. */
  predicate EvictionChoice(pt: seq<PageEntry>, v: int)
  {
    && 0 <= v < |pt|
    && pt[v].valid
    && forall p :: 0 <= p < |pt| && pt[p].valid ==> EvictionRank(pt[v]) <= EvictionRank(pt[p])
  }

  /** The TLB row that caches the page-table row `p` of page `vpn`. */
  function Translation(vpn: nat, p: PageEntry): TlbEntry
  {
    TlbEntry(true, p.dirty, p.referenced, vpn, p.frame)
  }

  /** Write-back of a TLB entry's D and R bits into its page's row. */
  function WriteBack(p: PageEntry, e: TlbEntry): PageEntry
  {
    p.(dirty := e.dirty, referenced := e.referenced)
  }

  /** The TLB entry after a hit: referenced, and dirty if the access writes. */
  function Touched(e: TlbEntry, write: bool): TlbEntry
  {
    e.(referenced := true, dirty := e.dirty || write)
  }

  /** Index of the first TLB entry that translates `vpn`, or -1 if none does. */
  function FirstTranslation(t: seq<TlbEntry>, vpn: nat): (r: int)
    ensures -1 <= r < |t|
    ensures r == -1 <==> forall i :: 0 <= i < |t| ==> !Translates(t[i], vpn)
    ensures r != -1 ==> Translates(t[r], vpn) && forall i :: 0 <= i < r ==> !Translates(t[i], vpn)
  {
    if t == [] then -1
    else if Translates(t[0], vpn) then 0
    else
      var r := FirstTranslation(t[1..], vpn);
      assert forall i :: 1 <= i < |t| ==> t[i] == t[1..][i - 1];
      if r == -1 then -1 else r + 1
  }

  /** An entry that translates `vpn` with none before it is the first. */
  lemma FirstTranslationAt(t: seq<TlbEntry>, vpn: nat, i: nat)
    requires i < |t| && Translates(t[i], vpn)
    requires forall j :: 0 <= j < i ==> !Translates(t[j], vpn)
    ensures FirstTranslation(t, vpn) == i
  {
  }

  /** Page `vpn`'s row once the TLB entry caching it, if any, is written back. */
  function Flushed(t: seq<TlbEntry>, p: PageEntry, vpn: nat): PageEntry
  {
    var k := FirstTranslation(t, vpn);
    if k == -1 then p else WriteBack(p, t[k])
  }

  /** The column of V bits of a TLB. */
  function Occupied(t: seq<TlbEntry>): (s: seq<bool>)
    ensures |s| == |t| && forall i :: 0 <= i < |t| ==> s[i] == t[i].valid
  {
    seq(|t|, i requires 0 <= i < |t| => t[i].valid)
  }

  /** The column of valid bits of a page table. */
  ghost function Residency(pt: seq<PageEntry>): (s: seq<bool>)
    ensures |s| == |pt| && forall i :: 0 <= i < |pt| ==> s[i] == pt[i].valid
  {
    seq(|pt|, i requires 0 <= i < |pt| => pt[i].valid)
  }

  /** Number of resident pages. */
  ghost function ResidentCount(pt: seq<PageEntry>): nat
  {
    CountTrue(Residency(pt))
  }

  /** Two different resident pages `p` and `q` claim the same frame. */
  predicate FrameClash(pt: seq<PageEntry>, p: int, q: int)
  {
    0 <= p < |pt| && 0 <= q < |pt| && p != q && pt[p].valid && pt[q].valid && pt[p].frame == pt[q].frame
  }

  /** Two different valid TLB entries `i` and `j` translate the same page. */
  predicate TagClash(t: seq<TlbEntry>, i: int, j: int)
  {
    0 <= i < |t| && 0 <= j < |t| && i != j && t[i].valid && t[j].valid && t[i].vpn == t[j].vpn
  }

  /** Resident pages sit in distinct, occupied frames, and there are exactly
      as many resident pages as occupied frames. */
  ghost predicate FramesConsistent(pt: seq<PageEntry>, ft: seq<bool>)
  {
    && |pt| == VPAGES
    && |ft| == FRAMES
    && (forall p :: 0 <= p < |pt| && pt[p].valid ==> pt[p].frame < |ft| && ft[pt[p].frame])
    && (forall p, q :: !FrameClash(pt, p, q))
    && ResidentCount(pt) == CountTrue(ft)
  }

  /** A valid TLB entry caches a resident page, with that page's frame and
      D and R bits at least as set as the page's own (the page-table bits are
      only brought up to date at shootdown); no page is cached twice. */
  ghost predicate TlbConsistent(t: seq<TlbEntry>, pt: seq<PageEntry>)
  {
    && |t| == TLB_SIZE
    && |pt| == VPAGES
    && (forall i :: 0 <= i < |t| && t[i].valid ==>
          && t[i].vpn < |pt|
          && pt[t[i].vpn].valid
          && t[i].frame == pt[t[i].vpn].frame
          && (pt[t[i].vpn].dirty ==> t[i].dirty)
          && (pt[t[i].vpn].referenced ==> t[i].referenced))
    && (forall i, j :: !TagClash(t, i, j))
  }

  /** With every frame occupied, at least one page is resident, so the page
      eviction candidate is always defined when the engine asks for it. */
  lemma FullMemoryHasResidentPage(pt: seq<PageEntry>, ft: seq<bool>)
    requires FramesConsistent(pt, ft)
    requires forall f :: 0 <= f < |ft| ==> ft[f]
    ensures exists p :: 0 <= p < |pt| && pt[p].valid
  {
    CountTrueFull(ft);
    CountTrueZero(Residency(pt));
  }

  /** No more pages are resident than there are frames. */
  lemma ResidentBound(pt: seq<PageEntry>, ft: seq<bool>)
    requires FramesConsistent(pt, ft)
    ensures ResidentCount(pt) <= FRAMES
    ensures ResidentCount(pt) == FRAMES <==> forall f :: 0 <= f < |ft| ==> ft[f]
  {
    CountTrueFull(ft);
  }

  /** A non-resident page has no valid TLB entry. */
  lemma NotResidentNotCached(t: seq<TlbEntry>, pt: seq<PageEntry>, vpn: nat)
    requires TlbConsistent(t, pt) && vpn < |pt| && !pt[vpn].valid
    ensures FirstTranslation(t, vpn) == -1
  {
  }

  /** The two page tables agree on which pages are resident and where; they
      may differ in D and R bits. */
  ghost predicate SameResidency(pt: seq<PageEntry>, pt': seq<PageEntry>)
  {
    |pt'| == |pt| && forall p :: 0 <= p < |pt| ==> pt'[p].valid == pt[p].valid && pt'[p].frame == pt[p].frame
  }

  /** Changing D and R bits of page-table rows, and nothing else, keeps the
      frame bookkeeping and the resident count. */
  lemma FramesIgnoreBits(pt: seq<PageEntry>, pt': seq<PageEntry>, ft: seq<bool>)
    requires FramesConsistent(pt, ft)
    requires SameResidency(pt, pt')
    ensures FramesConsistent(pt', ft)
    ensures ResidentCount(pt') == ResidentCount(pt)
  {
    assert Residency(pt') == Residency(pt);
    forall p, q ensures !FrameClash(pt', p, q) {
      assert !FrameClash(pt, p, q);
    }
  }

  /** Shooting down a valid entry (clearing its V bit and writing its D and R
      bits back to its page) keeps the TLB consistent. */
  lemma ShootdownKeepsTlb(t: seq<TlbEntry>, pt: seq<PageEntry>, k: nat)
    requires TlbConsistent(t, pt) && k < |t| && t[k].valid
    ensures TlbConsistent(t[k := t[k].(valid := false)], pt[t[k].vpn := WriteBack(pt[t[k].vpn], t[k])])
  {
    var t', pt' := t[k := t[k].(valid := false)], pt[t[k].vpn := WriteBack(pt[t[k].vpn], t[k])];
    forall i | 0 <= i < |t'| && t'[i].valid
      ensures t'[i].vpn < |pt'| && pt'[t'[i].vpn].valid && t'[i].frame == pt'[t'[i].vpn].frame
      ensures (pt'[t'[i].vpn].dirty ==> t'[i].dirty) && (pt'[t'[i].vpn].referenced ==> t'[i].referenced)
    {
      assert !TagClash(t, i, k);
    }
    forall i, j ensures !TagClash(t', i, j) {
      assert !TagClash(t, i, j);
    }
  }

  /** Installing the translation of a resident, uncached page in a free entry
      keeps the TLB consistent. */
  lemma InstallKeepsTlb(t: seq<TlbEntry>, pt: seq<PageEntry>, slot: nat, vpn: nat)
    requires TlbConsistent(t, pt) && slot < |t| && !t[slot].valid
    requires vpn < |pt| && pt[vpn].valid && FirstTranslation(t, vpn) == -1
    ensures TlbConsistent(t[slot := Translation(vpn, pt[vpn])], pt)
  {
    var t' := t[slot := Translation(vpn, pt[vpn])];
    forall i, j ensures !TagClash(t', i, j) {
      assert !TagClash(t, i, j);
    }
  }

  /** Invalidating an entry leaves an uncached page uncached. */
  lemma ShootdownKeepsUncached(t: seq<TlbEntry>, k: nat, vpn: nat)
    requires k < |t| && FirstTranslation(t, vpn) == -1
    ensures FirstTranslation(t[k := t[k].(valid := false)], vpn) == -1
  {
    var t' := t[k := t[k].(valid := false)];
    assert forall i :: 0 <= i < |t'| ==> !Translates(t'[i], vpn) by {
      forall i | 0 <= i < |t'| ensures !Translates(t'[i], vpn) {
        assert !Translates(t[i], vpn);
      }
    }
  }

  /** Marking a hit entry referenced, and dirty on a write, keeps the TLB
      consistent. */
  lemma TouchKeepsTlb(t: seq<TlbEntry>, pt: seq<PageEntry>, k: nat, write: bool)
    requires TlbConsistent(t, pt) && k < |t| && t[k].valid
    ensures TlbConsistent(t[k := Touched(t[k], write)], pt)
  {
    var t' := t[k := Touched(t[k], write)];
    forall i, j ensures !TagClash(t', i, j) {
      assert !TagClash(t, i, j);
    }
  }

  /** Rewriting the row of a page no TLB entry caches keeps the TLB consistent. */
  lemma UncachedRowKeepsTlb(t: seq<TlbEntry>, pt: seq<PageEntry>, vpn: nat, e: PageEntry)
    requires TlbConsistent(t, pt) && vpn < |pt| && FirstTranslation(t, vpn) == -1
    ensures TlbConsistent(t, pt[vpn := e])
  {
  }

  /** Releasing a resident, uncached page (clearing its V bit and freeing
      its frame) keeps both invariants and lowers the resident count by
      one. */
  lemma ReleaseKeepsTables(t: seq<TlbEntry>, pt: seq<PageEntry>, ft: seq<bool>, vpn: nat)
    requires FramesConsistent(pt, ft) && TlbConsistent(t, pt)
    requires vpn < |pt| && pt[vpn].valid && FirstTranslation(t, vpn) == -1
    ensures var pt' := pt[vpn := pt[vpn].(valid := false)];
            && FramesConsistent(pt', ft[pt[vpn].frame := false])
            && TlbConsistent(t, pt')
            && ResidentCount(pt') == ResidentCount(pt) - 1
  {
    EvictKeepsFrames(pt, ft, vpn, pt[vpn].(valid := false));
    UncachedRowKeepsTlb(t, pt, vpn, pt[vpn].(valid := false));
  }

  /** Evicting a resident page (clearing its V bit and freeing its frame)
      keeps the frame bookkeeping and lowers the resident count by one. */
  lemma {:induction false} EvictKeepsFrames(pt: seq<PageEntry>, ft: seq<bool>, vpn: nat, e: PageEntry)
    requires FramesConsistent(pt, ft) && vpn < |pt| && pt[vpn].valid
    requires !e.valid
    ensures FramesConsistent(pt[vpn := e], ft[pt[vpn].frame := false])
    ensures ResidentCount(pt[vpn := e]) == ResidentCount(pt) - 1
  {
    var f := pt[vpn].frame;
    assert Residency(pt[vpn := e]) == Residency(pt)[vpn := false];
    CountTrueUpdate(Residency(pt), vpn, false);
    CountTrueUpdate(ft, f, false);
    var pt' := pt[vpn := e];
    forall p | 0 <= p < |pt'| && pt'[p].valid ensures pt'[p].frame != f {
      assert !FrameClash(pt, p, vpn);
    }
    forall p, q ensures !FrameClash(pt', p, q) {
      assert !FrameClash(pt, p, q);
    }
  }

  /** Loading a page into a free frame keeps the frame bookkeeping and raises
      the resident count by one. */
  lemma {:induction false} LoadKeepsFrames(pt: seq<PageEntry>, ft: seq<bool>, vpn: nat, e: PageEntry)
    requires FramesConsistent(pt, ft) && vpn < |pt| && !pt[vpn].valid
    requires e.valid && e.frame < |ft| && !ft[e.frame]
    ensures FramesConsistent(pt[vpn := e], ft[e.frame := true])
    ensures ResidentCount(pt[vpn := e]) == ResidentCount(pt) + 1
  {
    assert Residency(pt[vpn := e]) == Residency(pt)[vpn := true];
    CountTrueUpdate(Residency(pt), vpn, true);
    CountTrueUpdate(ft, e.frame, true);
    var pt' := pt[vpn := e];
    forall p, q ensures !FrameClash(pt', p, q) {
      assert !FrameClash(pt, p, q);
    }
  }

  /** Clearing every R bit in the TLB and in the page table keeps the TLB
      consistent. */
  lemma ClearReferencedKeepsTlb(t: seq<TlbEntry>, pt: seq<PageEntry>, t': seq<TlbEntry>, pt': seq<PageEntry>)
    requires TlbConsistent(t, pt)
    requires |t'| == |t| && forall i :: 0 <= i < |t| ==> t'[i] == t[i].(referenced := false)
    requires |pt'| == |pt| && forall p :: 0 <= p < |pt| ==> pt'[p] == pt[p].(referenced := false)
    ensures TlbConsistent(t', pt')
  {
    forall i, j ensures !TagClash(t', i, j) {
      assert !TagClash(t, i, j);
    }
  }
}
