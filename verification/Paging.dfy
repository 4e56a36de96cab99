// Two-level paging: a page directory, page tables in frames of their own, and the calls that map,
// unmap and translate. The tables are shown to stand for one partial map from page numbers to entries.
module Paging {
  import opened Frames

  const ENTRIES: nat := 1024
  const PAGES: nat := 0x10_0000
  const TABLE_FRAMES: nat := 4096          // frames below the 16 MB that are mapped one to one
  const TABLE_WORDS: nat := 0x40_0000

  /** The page directory, and the physical words below 16 MB. */
  datatype Space = Space(dir: seq<nat>, mem: seq<nat>)

  datatype VmmResult = Success | ErrorNoMemory | ErrorAlreadyMapped | ErrorNotMapped | ErrorInvalidAddress

  // ---- Entries

  predicate Present(e: nat) { e % 2 == 1 }

  function FrameOf(e: nat): nat { e / 4096 }

  /** A page table entry: address, flags, PAGE_PRESENT. */
  function MakeEntry(paddr: nat, flags: nat): nat {
    paddr / 4096 * 4096 + flags / 2 * 2 + 1
  }

  lemma Packed(high: nat, low: nat)
    requires low < 2048
    ensures (high * 4096 + low * 2 + 1) % 2 == 1 && (high * 4096 + low * 2 + 1) / 4096 == high
  {
    Odd(high * 2048 + low);
    Divided(high, low * 2 + 1);
  }

  lemma Odd(x: nat)
    ensures (2 * x + 1) % 2 == 1
  {
  }

  lemma Divided(high: nat, k: nat)
    requires k < 4096
    ensures (high * 4096 + k) / 4096 == high
  {
  }

  lemma MadeEntry(paddr: nat, flags: nat)
    requires flags < 4096 && paddr % 4096 == 0
    ensures Present(MakeEntry(paddr, flags)) && FrameOf(MakeEntry(paddr, flags)) == paddr / 4096
  {
    Packed(paddr / 4096, flags / 2);
  }

  /** A directory entry: table address, the write and user flags, PAGE_PRESENT. */
  function MakeTableEntry(pt: nat, flags: nat): nat {
    pt / 4096 * 4096 + flags / 2 % 4 * 2 + 1
  }

  lemma MadeTableEntry(pt: nat, flags: nat)
    requires pt % 4096 == 0
    ensures Present(MakeTableEntry(pt, flags)) && FrameOf(MakeTableEntry(pt, flags)) == pt / 4096
  {
    Packed(pt / 4096, flags / 2 % 4);
  }

  // ---- The space as a map

  predicate TableAt(s: Space, d: nat) {
    d < |s.dir| && Present(s.dir[d])
  }

  /** Directory entries point to tables of their own, below 16 MB. */
  ghost predicate SpaceOk(s: Space) {
    && |s.dir| == ENTRIES && |s.mem| == TABLE_WORDS
    && (forall d: nat :: TableAt(s, d) ==> FrameOf(s.dir[d]) < TABLE_FRAMES)
    && forall d: nat, e: nat :: TableAt(s, d) && TableAt(s, e) && FrameOf(s.dir[d]) == FrameOf(s.dir[e]) ==> d == e
  }

  /** Where the entry of page v stands in memory. */
  function WordOf(s: Space, v: nat): (w: nat)
    requires SpaceOk(s) && v < PAGES && TableAt(s, v / 1024)
    ensures w < |s.mem|
  {
    FrameOf(s.dir[v / 1024]) * 1024 + v % 1024
  }

  function Entry(s: Space, v: nat): nat
    requires SpaceOk(s) && v < PAGES
  {
    if TableAt(s, v / 1024) then s.mem[WordOf(s, v)] else 0
  }

  ghost predicate IsMapped(s: Space, v: nat)
    requires SpaceOk(s)
  {
    v < PAGES && Present(Entry(s, v))
  }

  /** The partial map from page numbers to entries that the tables stand for. */
  ghost function MapOf(s: Space): (m: map<nat, nat>)
    requires SpaceOk(s)
    ensures forall v: nat :: v in m <==> IsMapped(s, v)
    ensures forall v: nat :: v in m ==> v < PAGES && m[v] == Entry(s, v)
  {
    map v: nat | v < PAGES && IsMapped(s, v) :: Entry(s, v)
  }

  /** The directory entries that have a table. */
  function Dirs(s: Space): set<nat> {
    set d | 0 <= d < |s.dir| && TableAt(s, d)
  }

  /** The frames that hold page tables. */
  ghost function Tables(s: Space): set<nat> {
    set d | 0 <= d < |s.dir| && TableAt(s, d) :: FrameOf(s.dir[d])
  }

  lemma WordsApart(s: Space, v: nat, w: nat)
    requires SpaceOk(s) && v < PAGES && w < PAGES && TableAt(s, v / 1024) && TableAt(s, w / 1024) && v != w
    ensures WordOf(s, v) != WordOf(s, w)
  {
    if v / 1024 == w / 1024 {
      assert v % 1024 != w % 1024;
    } else {
      assert FrameOf(s.dir[v / 1024]) != FrameOf(s.dir[w / 1024]);
    }
  }

  /** Writing one table entry changes the map at one page. */
  lemma EntryStored(s: Space, v: nat, e: nat)
    requires SpaceOk(s) && v < PAGES && TableAt(s, v / 1024)
    ensures var r := s.(mem := s.mem[WordOf(s, v) := e]);
      SpaceOk(r) && Tables(r) == Tables(s) && MapOf(r) == if Present(e) then MapOf(s)[v := e] else MapOf(s) - {v}
  {
    hide FrameOf, Present;
    var r := s.(mem := s.mem[WordOf(s, v) := e]);
    forall d: nat
      ensures TableAt(r, d) <==> TableAt(s, d)
    {
    }
    forall w: nat | w < PAGES
      ensures Entry(r, w) == if w == v then e else Entry(s, w)
    {
      if w != v && TableAt(s, w / 1024) {
        WordsApart(s, v, w);
      }
    }
  }

  /** The words of frame f cleared. */
  function Zeroed(mem: seq<nat>, f: nat): (r: seq<nat>)
    ensures |r| == |mem|
  {
    seq(|mem|, i requires 0 <= i < |mem| => if f * 1024 <= i < f * 1024 + 1024 then 0 else mem[i])
  }

  /** A new, empty table changes nothing in the map. */
  lemma TableAdded(s: Space, d: nat, e: nat)
    requires SpaceOk(s) && d < ENTRIES && !TableAt(s, d) && Present(e) && FrameOf(e) < TABLE_FRAMES && FrameOf(e) !in Tables(s)
    ensures var r := Space(s.dir[d := e], Zeroed(s.mem, FrameOf(e)));
      SpaceOk(r) && TableAt(r, d) && Tables(r) == Tables(s) + {FrameOf(e)} && MapOf(r) == MapOf(s)
  {
    hide FrameOf, Present;
    var r := Space(s.dir[d := e], Zeroed(s.mem, FrameOf(e)));
    forall c: nat
      ensures TableAt(r, c) <==> c == d || TableAt(s, c)
      ensures TableAt(s, c) ==> FrameOf(s.dir[c]) in Tables(s)
    {
    }
    assert r.dir[d] == e;
    forall w: nat | w < PAGES
      ensures Present(Entry(r, w)) <==> Present(Entry(s, w))
      ensures Present(Entry(s, w)) ==> Entry(r, w) == Entry(s, w)
    {
      ZeroIsAbsent();
      if TableAt(s, w / 1024) {
        assert FrameOf(s.dir[w / 1024]) != FrameOf(e);
      }
    }
    assert Tables(r) == Tables(s) + {FrameOf(e)} by {
      forall f | f in Tables(s)
        ensures f in Tables(r)
      {
        var c :| 0 <= c < |s.dir| && TableAt(s, c) && FrameOf(s.dir[c]) == f;
        assert TableAt(r, c);
      }
    }
  }

  lemma ZeroIsAbsent()
    ensures !Present(0)
  {
  }

  // ---- What the calls may change

  /** From s0 and the used frames u0 to s and u only page tables have been added, each in a frame that was free. */
  ghost predicate Grown(s0: Space, u0: set<nat>, s: Space, u: set<nat>) {
    Tables(s0) <= Tables(s) && u == u0 + (Tables(s) - Tables(s0)) && (Tables(s) - Tables(s0)) !! u0
  }

  /** No frame that a page table could go to is free. */
  ghost predicate NoTableFrame(used: set<nat>, total: nat) {
    forall f :: 0 <= f < TABLE_FRAMES && f < total ==> f in used
  }

  class Vmm {
    const pmm: Pmm
    const directory: array<nat>   // current_page_directory
    const mem: array<nat>         // the words below 16 MB, where page tables are reached directly

    ghost function Now(): Space
      reads directory, mem
    {
      Space(directory[..], mem[..])
    }

    ghost function Used(): set<nat>
      requires pmm.Shape()
      reads pmm.bitmap
    {
      UsedOf(pmm.Bits(), pmm.totalPages)
    }

    ghost predicate Separate() {
      var bits: object := pmm.bitmap;
      bits != directory && bits != mem && directory != mem
    }

    ghost predicate Valid()
      reads pmm, pmm.bitmap, directory, mem
    {
      Separate() && pmm.Valid() && SpaceOk(Now()) && Tables(Now()) <= Used()
    }

    /** What the space maps. */
    ghost function Map(): map<nat, nat>
      requires SpaceOk(Now())
      reads directory, mem
    {
      MapOf(Now())
    }

    /** Takes over a directory in order, whose tables stand in frames marked as used. */
    constructor (pmm: Pmm, directory: array<nat>, mem: array<nat>)
      requires var bits: object := pmm.bitmap; bits != directory && bits != mem
      requires directory != mem && pmm.Valid() && SpaceOk(Space(directory[..], mem[..]))
      requires Tables(Space(directory[..], mem[..])) <= UsedOf(pmm.Bits(), pmm.totalPages)
      ensures Valid() && this.pmm == pmm && this.directory == directory && this.mem == mem
    {
      this.pmm, this.directory, this.mem := pmm, directory, mem;
    }

    // ---- Frames

    /** pmm_alloc_frame: the lowest free frame, or 0. */
    method AllocFrame() returns (p: nat)
      requires pmm.Valid() && Separate()
      modifies pmm`usedPages, pmm.bitmap
      ensures pmm.Valid() && Now() == old(Now())
      ensures if Below(pmm.totalPages) <= old(Used()) then p == 0 && Used() == old(Used())
        else
          && p % 4096 == 0 && 0 < p / 4096 < pmm.totalPages && p / 4096 !in old(Used()) && Used() == old(Used()) + {p / 4096}
          && forall f :: 0 <= f < p / 4096 ==> f in old(Used())
    {
      ghost var bits := pmm.Bits();
      assert Below(pmm.totalPages) <= Used() ==> Used() == Below(pmm.totalPages);
      p := pmm.AllocPage();
      if p != 0 {
        UsedUpdate(bits, pmm.totalPages, p / 4096, true);
      }
    }

    method FreeFrame(p: nat)
      requires pmm.Valid() && Separate() && 0 < p / 4096 < pmm.totalPages
      modifies pmm`usedPages, pmm.bitmap
      ensures pmm.Valid() && Now() == old(Now()) && Used() == old(Used()) - {p / 4096}
    {
      UsedUpdate(pmm.Bits(), pmm.totalPages, p / 4096, false);
      pmm.FreePage(p);
    }

    /** A cleared table, or 0: a frame beyond 16 MB cannot be reached, and goes back. */
    method AllocPageTable() returns (pt: nat)
      requires pmm.Valid() && Separate() && mem.Length == TABLE_WORDS
      modifies pmm`usedPages, pmm.bitmap, mem
      ensures pmm.Valid() && (pt == 0 <==> NoTableFrame(old(Used()), pmm.totalPages))
      ensures pt == 0 ==> Used() == old(Used()) && mem[..] == old(mem[..])
      ensures pt != 0 ==>
        && pt % 4096 == 0 && pt / 4096 < TABLE_FRAMES && pt / 4096 !in old(Used()) && Used() == old(Used()) + {pt / 4096}
        && mem[..] == Zeroed(old(mem[..]), pt / 4096)
    {
      ghost var used := Used();
      pt := AllocFrame();
      if pt == 0 {
        return;
      }
      if pt / 4096 >= TABLE_FRAMES {
        FreeFrame(pt);
        assert Used() == used;
        return 0;
      }
      ghost var was := mem[..];
      forall i | 0 <= i < 1024 {
        mem[pt / 4096 * 1024 + i] := 0;
      }
      assert mem[..] == Zeroed(was, pt / 4096);
    }

    // ---- Single pages

    /** The first half of vmm_map_page: a directory entry without a table gets one. */
    method EnsureTable(pdIdx: nat, flags: nat) returns (ok: bool)
      requires Valid() && pdIdx < ENTRIES
      modifies pmm`usedPages, pmm.bitmap, directory, mem
      ensures Valid() && Grown(old(Now()), old(Used()), Now(), Used()) && Map() == old(Map())
      ensures ok ==> TableAt(Now(), pdIdx)
      ensures !ok <==> !TableAt(old(Now()), pdIdx) && NoTableFrame(old(Used()), pmm.totalPages)
      ensures !ok || TableAt(old(Now()), pdIdx) ==> Used() == old(Used())
      ensures Dirs(Now()) == if ok then Dirs(old(Now())) + {pdIdx} else Dirs(old(Now()))
    {
      hide FrameOf, Present, MakeTableEntry, MapOf, Zeroed, Entry, Tables, UsedOf, Pmm.Bits;
      ghost var s := Now();
      if Present(directory[pdIdx]) {
        return true;
      }
      var pt := AllocPageTable();
      if pt == 0 {
        assert Now() == s;
        return false;
      }
      MadeTableEntry(pt, flags);
      TableAdded(s, pdIdx, MakeTableEntry(pt, flags));
      directory[pdIdx] := MakeTableEntry(pt, flags);
      assert directory[..] == s.dir[pdIdx := MakeTableEntry(pt, flags)];
      assert Now() == Space(s.dir[pdIdx := MakeTableEntry(pt, flags)], Zeroed(s.mem, pt / 4096));
      return true;
    }

    method MapPage(vaddr: nat, paddr: nat, flags: nat) returns (r: VmmResult)
      requires Valid() && vaddr < ADDRESS_MOD && paddr < ADDRESS_MOD && flags < 4096
      modifies pmm`usedPages, pmm.bitmap, directory, mem
      ensures Valid() && Grown(old(Now()), old(Used()), Now(), Used())
      ensures Map() == if r.Success? then old(Map())[vaddr / 4096 := MakeEntry(paddr, flags)] else old(Map())
      ensures !r.Success? ==> Used() == old(Used())
      ensures r.ErrorInvalidAddress? <==> vaddr % 4096 != 0 || paddr % 4096 != 0
      ensures r.ErrorAlreadyMapped? <==> vaddr % 4096 == 0 && paddr % 4096 == 0 && vaddr / 4096 in old(Map())
      ensures r.ErrorNoMemory? <==> vaddr % 4096 == 0 && paddr % 4096 == 0
                                    && !TableAt(old(Now()), vaddr / 0x40_0000) && NoTableFrame(old(Used()), pmm.totalPages)
      ensures Dirs(Now()) == if r.Success? then Dirs(old(Now())) + {vaddr / 0x40_0000} else Dirs(old(Now()))
      ensures !r.ErrorNotMapped?
    {
      hide FrameOf, Present, MakeEntry, MapOf, Entry, NoTableFrame, Tables, Dirs, Grown, UsedOf, Pmm.Bits;
      GrownNot(Now(), Used());
      if vaddr % 4096 != 0 || paddr % 4096 != 0 {
        return ErrorInvalidAddress;
      }
      var pdIdx, ptIdx := vaddr / 0x40_0000, vaddr / 4096 % 1024;
      ghost var v := vaddr / 4096;
      PageIndex(vaddr);
      MappedHasTable(Now(), v);
      DirIs(Now(), pdIdx);
      var ok := EnsureTable(pdIdx, flags);
      if !ok {
        return ErrorNoMemory;
      }
      ghost var s := Now();
      var w := FrameOf(directory[pdIdx]) * 1024 + ptIdx;
      assert w == WordOf(s, v);
      EntryIs(s, v);
      assert Entry(s, v) == mem[w] by {
        EntryAt(s, v);
      }
      if Present(mem[w]) {
        return ErrorAlreadyMapped;
      }
      MadeEntry(paddr, flags);
      EntryStored(s, v, MakeEntry(paddr, flags));
      GrownStored(old(Now()), old(Used()), s, Used(), s.(mem := s.mem[w := MakeEntry(paddr, flags)]));
      SameDirs(s, s.(mem := s.mem[w := MakeEntry(paddr, flags)]));
      mem[w] := MakeEntry(paddr, flags);
      assert Now() == s.(mem := s.mem[w := MakeEntry(paddr, flags)]);
      return Success;
    }

    /** vmm_unmap_page; the result says whether the page was mapped. */
    method UnmapPage(vaddr: nat) returns (r: VmmResult)
      requires Valid() && vaddr < ADDRESS_MOD
      modifies mem
      ensures Valid() && Tables(Now()) == old(Tables(Now())) && directory[..] == old(directory[..]) && Used() == old(Used())
      ensures Map() == old(Map()) - {vaddr / 4096}
      ensures r == if vaddr / 4096 in old(Map()) then Success else ErrorNotMapped
    {
      hide FrameOf, Present, MapOf;
      ghost var s, v := Now(), vaddr / 4096;
      PageIndex(vaddr);
      var pdIdx, ptIdx := vaddr / 0x40_0000, vaddr / 4096 % 1024;
      if !Present(directory[pdIdx]) {
        NoTableNoEntry(s, v);
        return ErrorNotMapped;
      }
      var w := FrameOf(directory[pdIdx]) * 1024 + ptIdx;
      assert w == WordOf(s, v);
      EntryIs(s, v);
      if !Present(mem[w]) {
        return ErrorNotMapped;
      }
      ZeroIsAbsent();
      EntryStored(s, v, 0);
      mem[w] := 0;
      assert Now() == s.(mem := s.mem[w := 0]);
      return Success;
    }

    /** The translation of an address, or 0 if its page is not mapped. */
    method GetPhysicalAddress(vaddr: nat) returns (p: nat)
      requires Valid() && vaddr < ADDRESS_MOD
      ensures p == if vaddr / 4096 in Map() then Map()[vaddr / 4096] / 4096 * 4096 + vaddr % 4096 else 0
    {
      hide FrameOf, Present, MapOf;
      PageIndex(vaddr);
      EntryIs(Now(), vaddr / 4096);
      var pdIdx, ptIdx := vaddr / 0x40_0000, vaddr / 4096 % 1024;
      if !Present(directory[pdIdx]) {
        NoTableNoEntry(Now(), vaddr / 4096);
        return 0;
      }
      var pte := mem[FrameOf(directory[pdIdx]) * 1024 + ptIdx];
      if !Present(pte) {
        return 0;
      }
      return pte / 4096 * 4096 + vaddr % 4096;
    }

    // ---- The search for free addresses

    method IsMappedAt(vaddr: nat) returns (b: bool)
      requires Valid() && vaddr < ADDRESS_MOD
      ensures b <==> vaddr / 4096 in Map()
    {
      hide FrameOf, Present, MapOf;
      PageIndex(vaddr);
      EntryIs(Now(), vaddr / 4096);
      var pdIdx, ptIdx := vaddr / 0x40_0000, vaddr / 4096 % 1024;
      if !Present(directory[pdIdx]) {
        NoTableNoEntry(Now(), vaddr / 4096);
        return false;
      }
      b := Present(mem[FrameOf(directory[pdIdx]) * 1024 + ptIdx]);
    }

    /** The first of count pages from addr on that is mapped, or count; addresses wrap around. */
    method FirstMapped(addr: nat, count: nat, ghost p: nat) returns (i: nat)
      requires Valid() && addr == p % PAGES * 4096
      ensures i <= count && if i < count then FirstHit(Map(), p, i) else NoHits(Map(), p, count)
    {
      hide MapOf, SpaceOk, Pmm.Bits, Tables, UsedOf;
      i := 0;
      while i < count
        invariant i <= count && NoHits(Map(), p, i)
      {
        PageStep(addr, p, i);
        var mapped := IsMappedAt((addr + i * 4096) % ADDRESS_MOD);
        if mapped {
          return;
        }
        i := i + 1;
      }
    }

    /**
     * The search for count pages from start on. If they fit below end, it gives the lowest gap between start and end, or
     * 0; if not, its bound has wrapped around and what it finds is past end. ended is false exactly if the search goes
     * round the address space for ever, in which case the model leaves it after the first round.
     */
    method FindFreeVirtualAddress(start: nat, end: nat, count: nat) returns (r: nat, ended: bool)
      requires Valid() && start < ADDRESS_MOD && end < ADDRESS_MOD && count < ADDRESS_MOD
      ensures ended <==> !GoesRound(Map(), start / 4096, Limit(end / 4096 * 4096, count), count)
      ensures ended ==> Outcome(Map(), start / 4096, Limit(end / 4096 * 4096, count), count, r)
      ensures count * 4096 <= end / 4096 * 4096 ==>
        && ended
        && if exists p: nat :: GapIn(Map(), start / 4096, end / 4096, count, p) then
             r % 4096 == 0 && LowestGap(Map(), start / 4096, end / 4096, count, r / 4096)
           else r == 0
    {
      hide MapOf, SpaceOk, Pmm.Bits, Tables, UsedOf, Limit, Searched, Outcome, GoesRound, LowestGap, GapIn, FirstHit, NoHits, BlockedAt;
      ghost var m, lo, hi := Map(), start / 4096, end / 4096;
      ghost var fits := count * 4096 <= end / 4096 * 4096;
      var limit := Limit(end / 4096 * 4096, count);
      if fits {
        LimitIsSound(end / 4096 * 4096, count);
      }
      var addr := start / 4096 * 4096;
      var passed := 0;   // pages passed so far, no part of the source
      PagesBelow(start);
      SearchedNone(m, lo, limit, count);
      assert (lo + passed) % PAGES == lo;
      while addr <= limit
        invariant addr == (lo + passed) % PAGES * 4096
        invariant Searched(m, lo, limit, count, passed)
        invariant fits ==> lo + passed <= hi || passed == 0
        decreases PAGES + 1 - passed
      {
        if passed > PAGES {
          HasGoneRound(m, lo, limit, count, passed);
          return 0, false;
        }
        var i := FirstMapped(addr, count, lo + passed);
        assert Now() == old(Now()) && Map() == m;
        if i == count {
          Finds(m, lo, limit, count, passed);
          if fits {
            Gaps(m, lo, hi, count, passed);
          }
          return addr, true;
        }
        SearchedOn(m, lo, limit, count, passed, i);
        PageStep(addr, lo + passed, i + 1);
        addr := (addr + i * 4096 + PAGE_SIZE) % ADDRESS_MOD;
        passed := passed + i + 1;
      }
      FindsNothing(m, lo, limit, count, passed);
      if fits {
        Gaps(m, lo, hi, count, passed);
      }
      return 0, true;
    }

    // ---- Runs of pages

    /** The rollback of vmm_map_pages: the first n pages are unmapped again. */
    method UnmapFirst(vaddr: nat, n: nat, ghost m: map<nat, nat>, ghost es: seq<nat>)
      requires Valid() && |es| == n && FreshPages(m, vaddr, n) && Map() == Extended(m, vaddr, es)
      modifies mem
      ensures Valid() && Tables(Now()) == old(Tables(Now())) && Used() == old(Used()) && Map() == m
      ensures directory[..] == old(directory[..])
    {
      hide MapOf, Tables, UsedOf, Pmm.Bits, SpaceOk, Extended, PageSet, Address, FreshPages;
      RemoveNone(Map(), vaddr);
      for j := 0 to n
        invariant Valid() && Tables(Now()) == old(Tables(Now())) && Used() == old(Used())
        invariant Map() == Extended(m, vaddr, es) - PageSet(vaddr, j)
      {
        var r := UnmapPage(Address(vaddr, j));
        RemoveOneMore(Extended(m, vaddr, es), vaddr, j);
      }
      ExtendedAndBack(m, vaddr, es);
    }

    /** All of count pages, or none: when one of them cannot be mapped, those before it are unmapped again. */
    method MapPages(vaddr: nat, paddr: nat, count: nat, flags: nat) returns (r: VmmResult)
      requires Valid() && vaddr < ADDRESS_MOD && paddr < ADDRESS_MOD && flags < 4096
      modifies pmm`usedPages, pmm.bitmap, directory, mem
      ensures Valid() && Grown(old(Now()), old(Used()), Now(), Used())
      ensures r.Success? ==> FreshPages(old(Map()), vaddr, count) && Map() == Extended(old(Map()), vaddr, EntriesFor(paddr, flags, count))
      ensures !r.Success? ==> Map() == old(Map()) && RunRefused(r, old(Map()), vaddr, paddr, count, Dirs(old(Now())), old(Used()), pmm.totalPages)
      ensures r.Success? <==> CanMap(old(Map()), vaddr, paddr, count, Dirs(old(Now())), old(Used()), pmm.totalPages)
    {
      hide MapOf, Tables, Dirs, UsedOf, Pmm.Bits, SpaceOk, Grown, MakeEntry, FreshPages, Extended, EntriesFor, PageSet, Address, Missing, NoTableFrame, LowFree, TableAt;
      ghost var s0, u0, m, total := Now(), Used(), Map(), pmm.totalPages;
      GrownNot(s0, u0);
      FreshNone(m, vaddr);
      ExtendedNone(m, vaddr, paddr, flags);
      MissingNone(Dirs(s0), vaddr);
      for i := 0 to count
        invariant Valid() && Grown(s0, u0, Now(), Used())
        invariant FreshPages(m, vaddr, i) && Map() == Extended(m, vaddr, EntriesFor(paddr, flags, i))
        invariant Dirs(Now()) == Dirs(s0) + Missing(Dirs(s0), vaddr, i) && (0 < i ==> vaddr % 4096 == 0 && paddr % 4096 == 0)
      {
        ghost var s, u := Now(), Used();
        AlignedStep(vaddr, i);
        AlignedStep(paddr, i);
        MissingStep(Dirs(s0), vaddr, i);
        r := MapPage(Address(vaddr, i), Address(paddr, i), flags);
        if r != Success {
          DirIs(s, DirIndex(vaddr, i));
          UsedBelow(pmm);
          WhyRefused(r, m, vaddr, paddr, count, i, EntriesFor(paddr, flags, i), s0, u0, s, u, total);
          GrownTwice(s0, u0, s, u, Now(), Used());
          s, u := Now(), Used();
          UnmapFirst(vaddr, i, m, EntriesFor(paddr, flags, i));
          GrownStored(s0, u0, s, u, Now());
          RefusedCannot(r, m, vaddr, paddr, count, Dirs(s0), u0, total);
          return;
        }
        GrownTwice(s0, u0, s, u, Now(), Used());
        FreshOneMore(m, vaddr, EntriesFor(paddr, flags, i));
        ExtendedOneMore(m, vaddr, paddr, flags, i);
      }
      UsedBelow(pmm);
      GrownCounts(s0, u0, Now(), Used(), total);
      MissingSize(Dirs(s0), Missing(Dirs(s0), vaddr, count), vaddr, count);
      return Success;
    }

    /** The rollback of vmm_alloc_virtual_pages: the first pages are unmapped again and their frames go back. */
    method FreeFirst(vaddr: nat, n: nat, flags: nat, ghost m: map<nat, nat>, ghost frames: seq<nat>)
      requires Valid() && |frames| == n && FreshPages(m, vaddr, n) && Map() == Extended(m, vaddr, EntriesOf(frames, flags))
      requires flags < 4096 && (0 < n ==> vaddr % 4096 == 0) && Spare(Now(), frames, pmm.totalPages)
      modifies pmm`usedPages, pmm.bitmap, mem
      ensures Valid() && Tables(Now()) == old(Tables(Now())) && Map() == m && Used() == old(Used()) - FrameSet(frames, n)
    {
      hide MapOf, Tables, UsedOf, Pmm.Bits, SpaceOk, Extended, FreshPages, EntriesOf, FrameSet, Spare, PageAt, Undone;
      UndoneNone(m, vaddr, frames, flags, Used(), pmm.totalPages);
      for j := 0 to n
        invariant Valid() && Tables(Now()) == old(Tables(Now())) && Undone(m, vaddr, frames, flags, old(Used()), j, Map(), Used())
      {
        SpareStays(old(Now()), Now(), frames, pmm.totalPages);
        UndoneOneMore(m, vaddr, frames, flags, old(Used()), j, Map(), Used(), Now(), pmm.totalPages);
        FreeOne(vaddr, j, frames[j]);
      }
      UndoneAll(m, vaddr, frames, flags, old(Used()), Map(), Used());
    }

    method FreeOne(vaddr: nat, j: nat, ghost f: nat)
      requires Valid() && vaddr % 4096 == 0 && PageAt(vaddr, j) in Map() && Map()[PageAt(vaddr, j)] / 4096 * 4096 == f * 4096
      requires 0 < f < pmm.totalPages && f !in Tables(Now())
      modifies pmm`usedPages, pmm.bitmap, mem
      ensures Valid() && Tables(Now()) == old(Tables(Now())) && Map() == old(Map()) - {PageAt(vaddr, j)} && Used() == old(Used()) - {f}
    {
      hide MapOf, Tables, UsedOf, Pmm.Bits, SpaceOk, Address;
      AlignedStep(vaddr, j);
      var p := GetPhysicalAddress(Address(vaddr, j));
      assert p / 4096 == f;
      if p != 0 {
        FreeFrame(p);
      }
      var r := UnmapPage(Address(vaddr, j));
    }

    /** One page with a frame of its own; without success nothing has changed. */
    method AllocOne(a: nat, flags: nat) returns (r: VmmResult, ghost f: nat)
      requires Valid() && a < ADDRESS_MOD && flags < 4096
      modifies pmm`usedPages, pmm.bitmap, directory, mem
      ensures Valid()
      ensures r.Success? ==>
        && a % 4096 == 0 && 0 < f < pmm.totalPages && f !in old(Used()) && a / 4096 !in old(Map())
        && Map() == old(Map())[a / 4096 := MakeEntry(f * 4096, flags)] && Grown(old(Now()), old(Used()) + {f}, Now(), Used())
        && (forall k :: 0 <= k < f ==> k in old(Used())) && Dirs(Now()) == Dirs(old(Now())) + {a / 0x40_0000}
      ensures !r.Success? ==> Map() == old(Map()) && Tables(Now()) == old(Tables(Now())) && Used() == old(Used())
      ensures !r.Success? ==> OneRefused(r, a, old(Map()), Dirs(old(Now())), old(Used()), pmm.totalPages, f)
    {
      hide MapOf, Tables, Dirs, UsedOf, Pmm.Bits, SpaceOk, MakeEntry, Grown, Below, NoTableFrame, TableAt, LowFree;
      f := 0;
      var p := AllocFrame();
      if p == 0 {
        return ErrorNoMemory, f;
      }
      f := p / 4096;
      ghost var s, u := Now(), Used();
      r := MapPage(a, p, flags);
      if r != Success {
        GrownByNothing(s, u, Now());
        if r.ErrorNoMemory? {
          DirIs(s, a / 0x40_0000);
          OneLeft(old(Used()), f, pmm.totalPages);
        }
        FreeFrame(p);
      }
    }

    /** A fresh frame for each of count pages, or none: a failure gives all of them back. */
    method AllocVirtualPages(vaddr: nat, count: nat, user: bool) returns (r: VmmResult, ghost frames: seq<nat>)
      requires Valid() && vaddr < ADDRESS_MOD
      modifies pmm`usedPages, pmm.bitmap, directory, mem
      ensures Valid()
      ensures r.Success? ==>
        && 0 < count == |frames| && FreshPages(old(Map()), vaddr, count)
        && Map() == Extended(old(Map()), vaddr, EntriesOf(frames, if user then 7 else 3))
        && FrameSet(frames, count) !! old(Used()) && |FrameSet(frames, count)| == count
        && Grown(old(Now()), old(Used()) + FrameSet(frames, count), Now(), Used())
      ensures !r.Success? ==> Map() == old(Map()) && Grown(old(Now()), old(Used()), Now(), Used())
      ensures !r.Success? ==> AllocRefused(r, old(Map()), vaddr, count, Dirs(old(Now())), old(Used()), pmm.totalPages)
      ensures r.Success? <==> CanAlloc(old(Map()), vaddr, count, Dirs(old(Now())), old(Used()), pmm.totalPages)
    {
      hide MapOf, Tables, Dirs, UsedOf, Pmm.Bits, SpaceOk, Extended, PageSet, FreshPages, EntriesOf, FrameSet, Spare, Address, MakeEntry, Grown, Taken, OneRefused, Budget, CanAlloc, AllocRefused, Missing, Underway;
      ghost var s0, u0, m, total := Now(), Used(), Map(), pmm.totalPages;
      frames := [];
      GrownNot(s0, u0);
      if count == 0 {
        NothingAsked(m, vaddr, Dirs(s0), u0, total);
        return ErrorInvalidAddress, frames;
      }
      var flags := if user then 7 else 3;
      UnderwayAtFirst(s0, u0, m, vaddr, flags, total);
      for i := 0 to count
        invariant Valid() && |frames| == i && Map() == Extended(m, vaddr, EntriesOf(frames, flags))
        invariant Underway(s0, u0, m, vaddr, Now(), Used(), frames, total)
      {
        ghost var s, u := Now(), Used();
        ghost var f;
        r, f := AllocOne(Address(vaddr, i), flags);
        if r != Success {
          UnderwayMeans(s0, u0, m, vaddr, s, u, frames, total);
          TakenSame(s0, u0, s, Now(), u, frames, total);
          WhyNotAllocated(r, m, vaddr, count, flags, frames, Dirs(s0), u0, Dirs(s), u, f, total);
          GiveBack(s0, u0, m, vaddr, i, flags, frames);
          return r, frames;
        }
        UsedBelow(pmm);
        UnderwayOneMore(s0, u0, m, vaddr, flags, s, u, Now(), Used(), frames, total, f);
        EntriesOneMore(m, vaddr, frames, flags, f);
        frames := frames + [f];
      }
      UnderwayMeans(s0, u0, m, vaddr, Now(), Used(), frames, total);
      BudgetKept(m, Dirs(s0), u0, vaddr, count, Dirs(Now()), Used(), total);
      TakenMeans(s0, u0, Now(), Used(), frames, total);
      return Success, frames;
    }

    /** The rollback, after which only page tables have been added. */
    method GiveBack(ghost s0: Space, ghost u0: set<nat>, ghost m: map<nat, nat>, vaddr: nat, n: nat, flags: nat, ghost frames: seq<nat>)
      requires Valid() && |frames| == n && FreshPages(m, vaddr, n) && Map() == Extended(m, vaddr, EntriesOf(frames, flags))
      requires flags < 4096 && (0 < n ==> vaddr % 4096 == 0) && Taken(s0, u0, Now(), Used(), frames, pmm.totalPages)
      modifies pmm`usedPages, pmm.bitmap, mem
      ensures Valid() && Map() == m && Grown(s0, u0, Now(), Used()) && Used() == old(Used()) - FrameSet(frames, n)
    {
      hide MapOf, Tables, UsedOf, Pmm.Bits, SpaceOk, Extended, PageSet, FreshPages, EntriesOf, FrameSet, Spare, Grown, Taken;
      ghost var s, u := Now(), Used();
      TakenIsSpare(s0, u0, s, u, frames, pmm.totalPages);
      FreeFirst(vaddr, n, flags, m, frames);
      TakenReturned(s0, u0, s, u, Now(), Used(), frames, pmm.totalPages);
    }
  }

  // ---- When a call succeeds

  /** The free frames, and those of them that could hold a page table. */
  function Free(used: set<nat>, total: nat): set<nat> { Below(total) - used }

  function LowFree(used: set<nat>, total: nat): set<nat> {
    Below(if total < TABLE_FRAMES then total else TABLE_FRAMES) - used
  }

  /** The directory entry for page i of a run. */
  function DirIndex(vaddr: nat, i: nat): nat { Address(vaddr, i) / 0x40_0000 }

  /** The directory entries of the first n pages that have no table yet. */
  function Missing(dirs: set<nat>, vaddr: nat, n: nat): set<nat> {
    if n == 0 then {} else Missing(dirs, vaddr, n - 1) + (if DirIndex(vaddr, n - 1) in dirs then {} else {DirIndex(vaddr, n - 1)})
  }

  lemma MissingNone(dirs: set<nat>, vaddr: nat)
    ensures dirs + Missing(dirs, vaddr, 0) == dirs
  {
  }

  lemma MissingStep(dirs: set<nat>, vaddr: nat, n: nat)
    ensures dirs + Missing(dirs, vaddr, n + 1) == dirs + Missing(dirs, vaddr, n) + {DirIndex(vaddr, n)}
    ensures Missing(dirs, vaddr, n + 1) ==
            Missing(dirs, vaddr, n) + if DirIndex(vaddr, n) in dirs + Missing(dirs, vaddr, n) then {} else {DirIndex(vaddr, n)}
    ensures Missing(dirs, vaddr, n + 1) !! dirs
  {
    hide DirIndex;
    MissingApart(dirs, vaddr, n + 1);
  }

  lemma {:induction false} MissingApart(dirs: set<nat>, vaddr: nat, n: nat)
    ensures Missing(dirs, vaddr, n) !! dirs
  {
    hide DirIndex;
    if n > 0 {
      MissingApart(dirs, vaddr, n - 1);
    }
  }

  lemma {:induction false} MissingGrows(dirs: set<nat>, vaddr: nat, n: nat, k: nat)
    requires n <= k
    ensures Missing(dirs, vaddr, n) <= Missing(dirs, vaddr, k) && |Missing(dirs, vaddr, n)| <= |Missing(dirs, vaddr, k)|
    decreases k
  {
    hide DirIndex;
    if n < k {
      MissingGrows(dirs, vaddr, n, k - 1);
      SmallerSet(Missing(dirs, vaddr, n), Missing(dirs, vaddr, k));
    }
  }

  lemma MissingSize(dirs: set<nat>, more: set<nat>, vaddr: nat, n: nat)
    requires more == Missing(dirs, vaddr, n)
    ensures |dirs + more| == |dirs| + |more|
  {
    MissingApart(dirs, vaddr, n);
  }

  lemma DirIs(s: Space, d: nat)
    ensures d in Dirs(s) <==> TableAt(s, d)
  {
  }

  lemma SameDirs(s: Space, t: Space)
    requires s.dir == t.dir
    ensures Dirs(s) == Dirs(t)
  {
  }

  lemma UsedBelow(pmm: Pmm)
    requires pmm.Shape()
    ensures UsedOf(pmm.Bits(), pmm.totalPages) <= Below(pmm.totalPages)
  {
    hide Pmm.Bits;
  }

  /** Tables of different directory entries stand in different frames. */
  lemma {:induction false} ImageSize(s: Space, dirs: set<nat>)
    requires SpaceOk(s) && dirs <= Dirs(s)
    ensures |set d | d in dirs :: FrameOf(s.dir[d])| == |dirs|
    decreases |dirs|
  {
    if dirs != {} {
      var d :| d in dirs;
      var rest := dirs - {d};
      ImageSize(s, rest);
      var a, b := set e | e in rest :: FrameOf(s.dir[e]), set e | e in dirs :: FrameOf(s.dir[e]);
      assert TableAt(s, d) && FrameOf(s.dir[d]) !in a;
      assert b == a + {FrameOf(s.dir[d])};
    }
  }

  lemma TablesCount(s: Space)
    requires SpaceOk(s)
    ensures |Tables(s)| == |Dirs(s)|
  {
    ImageSize(s, Dirs(s));
    assert Tables(s) == set d | d in Dirs(s) :: FrameOf(s.dir[d]);
  }

  lemma TablesAreLow(s: Space)
    requires SpaceOk(s)
    ensures forall f :: f in Tables(s) ==> 0 <= f < TABLE_FRAMES
  {
  }

  /** Each table that has been added has used up one of the frames for tables. */
  lemma GrownCounts(s0: Space, u0: set<nat>, s: Space, u: set<nat>, total: nat)
    requires SpaceOk(s0) && SpaceOk(s) && Grown(s0, u0, s, u) && u <= Below(total)
    ensures |LowFree(u, total)| == |LowFree(u0, total)| - (|Dirs(s)| - |Dirs(s0)|)
    ensures |Free(u, total)| == |Free(u0, total)| - (|Dirs(s)| - |Dirs(s0)|)
  {
    hide SpaceOk, Tables, Dirs, LowFree, Free, Below;
    TablesCount(s0);
    TablesCount(s);
    TablesAreLow(s);
    var n := Tables(s) - Tables(s0);
    assert Tables(s) == Tables(s0) + n;
    FreeLess(u0, n, total);
  }

  lemma FreeLess(u: set<nat>, n: set<nat>, total: nat)
    requires n !! u && n <= Below(total) && forall f :: f in n ==> f < TABLE_FRAMES
    ensures |LowFree(u + n, total)| == |LowFree(u, total)| - |n| && |Free(u + n, total)| == |Free(u, total)| - |n|
  {
    assert LowFree(u + n, total) == LowFree(u, total) - n && LowFree(u, total) == LowFree(u + n, total) + n;
    assert Free(u + n, total) == Free(u, total) - n && Free(u, total) == Free(u + n, total) + n;
  }

  lemma NoneLow(used: set<nat>, total: nat)
    ensures NoTableFrame(used, total) <==> LowFree(used, total) == {}
  {
    var low := LowFree(used, total);
    forall f | 0 <= f < TABLE_FRAMES && f < total
      ensures f in used <==> f !in low
    {
    }
    assert low != {} ==> exists f :: f in low;
  }

  /** Memory for the run: a table for each entry that lacks one, and a frame below 16 MB for each table. */
  predicate CanMap(m: map<nat, nat>, vaddr: nat, paddr: nat, count: nat, dirs: set<nat>, u: set<nat>, total: nat) {
    && (0 < count ==> vaddr % 4096 == 0 && paddr % 4096 == 0)
    && FreshPages(m, vaddr, count)
    && |Missing(dirs, vaddr, count)| <= |LowFree(u, total)|
  }

  /** Each way in which vmm_map_pages fails tells what was wrong. */
  predicate RunRefused(r: VmmResult, m: map<nat, nat>, vaddr: nat, paddr: nat, count: nat, dirs: set<nat>, u: set<nat>, total: nat) {
    match r
    case ErrorInvalidAddress => 0 < count && (vaddr % 4096 != 0 || paddr % 4096 != 0)
    case ErrorAlreadyMapped => !FreshPages(m, vaddr, count)
    case ErrorNoMemory => |LowFree(u, total)| < |Missing(dirs, vaddr, count)|
    case _ => false
  }

  lemma RefusedCannot(r: VmmResult, m: map<nat, nat>, vaddr: nat, paddr: nat, count: nat, dirs: set<nat>, u: set<nat>, total: nat)
    requires RunRefused(r, m, vaddr, paddr, count, dirs, u, total)
    ensures !CanMap(m, vaddr, paddr, count, dirs, u, total)
  {
    hide FreshPages, Missing, LowFree;
  }

  lemma WhyRefused(r: VmmResult, m: map<nat, nat>, vaddr: nat, paddr: nat, count: nat, i: nat, es: seq<nat>, s0: Space, u0: set<nat>, s: Space, u: set<nat>, total: nat)
    requires i < count && |es| == i && !r.Success? && !r.ErrorNotMapped?
    requires SpaceOk(s0) && SpaceOk(s) && Grown(s0, u0, s, u) && u <= Below(total)
    requires Dirs(s) == Dirs(s0) + Missing(Dirs(s0), vaddr, i)
    requires r.ErrorInvalidAddress? ==> vaddr % 4096 != 0 || paddr % 4096 != 0
    requires r.ErrorAlreadyMapped? ==> PageAt(vaddr, i) in Extended(m, vaddr, es)
    requires r.ErrorNoMemory? ==> DirIndex(vaddr, i) !in Dirs(s) && NoTableFrame(u, total)
    ensures RunRefused(r, m, vaddr, paddr, count, Dirs(s0), u0, total)
  {
    hide Address, NoTableFrame, Extended, SpaceOk, Grown, Dirs, Missing, LowFree, DirIndex;
    ExtendedKeys(m, vaddr, es);
    if r.ErrorNoMemory? {
      var dirs := Dirs(s0);
      NoneLow(u, total);
      GrownCounts(s0, u0, s, u, total);
      MissingSize(dirs, Missing(dirs, vaddr, i), vaddr, i);
      MissingStep(dirs, vaddr, i);
      MissingGrows(dirs, vaddr, i + 1, count);
    }
  }

  /**
   * The frames of vmm_alloc_virtual_pages: one for each page and one for each table. Every page takes the lowest free
   * frame first, so that a table is only to be had if frames below 16 MB are left for it after that.
   */
  predicate TableFits(dirs: set<nat>, u: set<nat>, total: nat, vaddr: nat, i: nat) {
    DirIndex(vaddr, i) in dirs + Missing(dirs, vaddr, i) || i + 1 + |Missing(dirs, vaddr, i + 1)| <= |LowFree(u, total)|
  }

  predicate FramesFit(dirs: set<nat>, u: set<nat>, total: nat, vaddr: nat, count: nat) {
    && count + |Missing(dirs, vaddr, count)| <= |Free(u, total)|
    && forall i :: 0 <= i < count ==> TableFits(dirs, u, total, vaddr, i)
  }

  predicate CanAlloc(m: map<nat, nat>, vaddr: nat, count: nat, dirs: set<nat>, u: set<nat>, total: nat) {
    0 < count && vaddr % 4096 == 0 && FreshPages(m, vaddr, count) && FramesFit(dirs, u, total, vaddr, count)
  }

  predicate AllocRefused(r: VmmResult, m: map<nat, nat>, vaddr: nat, count: nat, dirs: set<nat>, u: set<nat>, total: nat) {
    match r
    case ErrorInvalidAddress => count == 0 || vaddr % 4096 != 0
    case ErrorAlreadyMapped => !FreshPages(m, vaddr, count)
    case ErrorNoMemory => !FramesFit(dirs, u, total, vaddr, count)
    case _ => false
  }

  lemma NothingAsked(m: map<nat, nat>, vaddr: nat, dirs: set<nat>, u: set<nat>, total: nat)
    ensures AllocRefused(ErrorInvalidAddress, m, vaddr, 0, dirs, u, total) && !CanAlloc(m, vaddr, 0, dirs, u, total)
  {
  }

  /** What one page meets that cannot be had; f is the frame it had been given, if any. */
  predicate OneRefused(r: VmmResult, a: nat, m: map<nat, nat>, dirs: set<nat>, u: set<nat>, total: nat, f: nat) {
    match r
    case ErrorInvalidAddress => a % 4096 != 0
    case ErrorAlreadyMapped => a / 4096 in m
    case ErrorNoMemory => Below(total) <= u || (a / 0x40_0000 !in dirs && LowFree(u, total) <= {f})
    case _ => false
  }

  lemma OneLeft(used: set<nat>, f: nat, total: nat)
    requires NoTableFrame(used + {f}, total)
    ensures LowFree(used, total) <= {f}
  {
    forall x | x in LowFree(used, total)
      ensures x == f
    {
      assert 0 <= x < TABLE_FRAMES && x < total && x !in used;
      assert x in used + {f};
    }
  }

  /** What is left after the first i pages. */
  predicate Budget(dirs0: set<nat>, u0: set<nat>, vaddr: nat, i: nat, dirs: set<nat>, u: set<nat>, total: nat) {
    var more := |Missing(dirs0, vaddr, i)|;
    && dirs == dirs0 + Missing(dirs0, vaddr, i)
    && |Free(u, total)| == |Free(u0, total)| - i - more
    && |LowFree(u, total)| == (if |LowFree(u0, total)| > i + more then |LowFree(u0, total)| - i - more else 0)
    && forall j :: 0 <= j < i ==> TableFits(dirs0, u0, total, vaddr, j)
  }

  lemma BudgetAtFirst(s0: Space, u0: set<nat>, vaddr: nat, total: nat)
    ensures Budget(Dirs(s0), u0, vaddr, 0, Dirs(s0), u0, total)
  {
    hide LowFree, Free, Dirs;
    MissingNone(Dirs(s0), vaddr);
  }

  /** The lowest free frame is one for tables as long as there are any. */
  lemma LowestTaken(u: set<nat>, f: nat, total: nat)
    requires f < total && f !in u && forall k :: 0 <= k < f ==> k in u
    ensures |Free(u + {f}, total)| == |Free(u, total)| - 1
    ensures |LowFree(u + {f}, total)| == if |LowFree(u, total)| > 0 then |LowFree(u, total)| - 1 else 0
  {
    hide Below;
    OneTaken(Below(total), u, f);
    if f < TABLE_FRAMES {
      OneTaken(Below(if total < TABLE_FRAMES then total else TABLE_FRAMES), u, f);
    } else {
      NoneLow(u, total);
      NoneLow(u + {f}, total);
    }
  }

  lemma OneTaken(all: set<nat>, u: set<nat>, f: nat)
    requires f in all && f !in u
    ensures |all - (u + {f})| == |all - u| - 1
  {
    assert all - u == (all - (u + {f})) + {f};
  }

  lemma BudgetGoesOn(dirs0: set<nat>, u0: set<nat>, vaddr: nat, i: nat, s: Space, u: set<nat>, t: Space, w: set<nat>, f: nat, total: nat)
    requires Budget(dirs0, u0, vaddr, i, Dirs(s), u, total) && SpaceOk(s) && SpaceOk(t) && Grown(s, u + {f}, t, w) && w <= Below(total)
    requires f < total && f !in u && forall k :: 0 <= k < f ==> k in u
    requires Dirs(t) == Dirs(s) + {DirIndex(vaddr, i)}
    ensures Budget(dirs0, u0, vaddr, i + 1, Dirs(t), w, total)
  {
    hide LowFree, Free, Dirs, SpaceOk, Grown, Missing, DirIndex;
    LowestTaken(u, f, total);
    GrownCounts(s, u + {f}, t, w, total);
    MissingStep(dirs0, vaddr, i);
    var d := DirIndex(vaddr, i);
    assert d !in Dirs(s) ==> |Dirs(t)| == |Dirs(s)| + 1;
    assert d in Dirs(s) ==> Dirs(t) == Dirs(s);
  }

  lemma BudgetKept(m: map<nat, nat>, dirs0: set<nat>, u0: set<nat>, vaddr: nat, count: nat, dirs: set<nat>, u: set<nat>, total: nat)
    requires Budget(dirs0, u0, vaddr, count, dirs, u, total) && 0 < count && vaddr % 4096 == 0 && FreshPages(m, vaddr, count)
    ensures CanAlloc(m, vaddr, count, dirs0, u0, total)
  {
    hide LowFree, Free, Missing, TableFits, FreshPages;
  }

  lemma WhyNotAllocated(r: VmmResult, m: map<nat, nat>, vaddr: nat, count: nat, flags: nat, frames: seq<nat>, dirs0: set<nat>, u0: set<nat>, dirs: set<nat>, u: set<nat>, f: nat, total: nat)
    requires |frames| < count && Budget(dirs0, u0, vaddr, |frames|, dirs, u, total)
    requires OneRefused(r, Address(vaddr, |frames|), Extended(m, vaddr, EntriesOf(frames, flags)), dirs, u, total, f)
    ensures AllocRefused(r, m, vaddr, count, dirs0, u0, total) && !CanAlloc(m, vaddr, count, dirs0, u0, total)
  {
    hide Address, Extended, EntriesOf, Below, Missing, LowFree;
    var i := |frames|;
    AlignedStep(vaddr, i);
    ExtendedKeys(m, vaddr, EntriesOf(frames, flags));
    if r.ErrorNoMemory? {
      MissingGrows(dirs0, vaddr, i, count);
      if Below(total) <= u {
        assert Free(u, total) == {};
      } else {
        SmallerSet(LowFree(u, total), {f});
        MissingStep(dirs0, vaddr, i);
        assert !TableFits(dirs0, u0, total, vaddr, i);
      }
    }
  }

  lemma SmallerSet(a: set<nat>, b: set<nat>)
    requires a <= b
    ensures |a| <= |b|
  {
    assert b == a + (b - a);
  }

  // ---- Data frames

  function FrameSet(frames: seq<nat>, n: nat): set<nat>
    requires n <= |frames|
  {
    set i | 0 <= i < n :: frames[i]
  }

  /** The entries of pages mapped to the given frames. */
  function EntriesOf(frames: seq<nat>, flags: nat): (es: seq<nat>)
    ensures |es| == |frames|
  {
    seq(|frames|, i requires 0 <= i < |frames| => MakeEntry(frames[i] * 4096, flags))
  }

  /** Different frames of the memory, none of which holds a page table. */
  ghost predicate Spare(s: Space, frames: seq<nat>, total: nat) {
    && (forall i :: 0 <= i < |frames| ==> 0 < frames[i] < total && frames[i] !in Tables(s))
    && forall i, j :: 0 <= i < j < |frames| ==> frames[i] != frames[j]
  }

  /** From s0 and u0 to s and u, page tables have been added and the frames been taken. */
  ghost predicate Taken(s0: Space, u0: set<nat>, s: Space, u: set<nat>, frames: seq<nat>, total: nat) {
    && Spare(s, frames, total) && FrameSet(frames, |frames|) !! u0
    && Grown(s0, u0 + FrameSet(frames, |frames|), s, u)
  }

  lemma TakenNone(s0: Space, u0: set<nat>, m: map<nat, nat>, vaddr: nat, flags: nat, total: nat)
    ensures Taken(s0, u0, s0, u0, [], total) && Extended(m, vaddr, EntriesOf([], flags)) == m
  {
    assert u0 + FrameSet([], 0) == u0;
  }

  lemma FrameSetGrows(frames: seq<nat>, f: nat)
    ensures FrameSet(frames + [f], |frames| + 1) == FrameSet(frames, |frames|) + {f}
  {
    var g := frames + [f];
    forall x | x in FrameSet(frames, |frames|)
      ensures x in FrameSet(g, |frames| + 1)
    {
      var i :| 0 <= i < |frames| && frames[i] == x;
      assert g[i] == x;
    }
    assert g[|frames|] == f;
  }

  lemma TakenOneMore(s0: Space, u0: set<nat>, s: Space, u: set<nat>, t: Space, w: set<nat>, frames: seq<nat>, total: nat, f: nat)
    requires f !in u && 0 < f < total && Taken(s0, u0, s, u, frames, total) && Tables(s) <= u && Grown(s, u + {f}, t, w)
    ensures Taken(s0, u0, t, w, frames + [f], total)
  {
    hide Tables, FrameSet;
    var g := frames + [f];
    FrameSetGrows(frames, f);
    AllInSet(frames);
    assert u0 + FrameSet(g, |g|) == u0 + FrameSet(frames, |frames|) + {f};
    forall i | 0 <= i < |g|
      ensures 0 < g[i] < total && g[i] !in Tables(t)
    {
      assert g[i] in u + {f};
    }
  }

  lemma AllInSet(frames: seq<nat>)
    ensures forall i :: 0 <= i < |frames| ==> frames[i] in FrameSet(frames, |frames|)
  {
  }

  lemma TakenSame(s0: Space, u0: set<nat>, s: Space, t: Space, u: set<nat>, frames: seq<nat>, total: nat)
    requires Taken(s0, u0, s, u, frames, total) && Tables(t) == Tables(s)
    ensures Taken(s0, u0, t, u, frames, total)
  {
  }

  lemma GrownByNothing(s: Space, u: set<nat>, t: Space)
    requires Grown(s, u, t, u)
    ensures Tables(t) == Tables(s)
  {
    hide Tables;
    forall x | x in Tables(t)
      ensures x in Tables(s)
    {
      assert x in Tables(t) - Tables(s) ==> x in u;
    }
  }

  lemma TakenIsSpare(s0: Space, u0: set<nat>, s: Space, u: set<nat>, frames: seq<nat>, total: nat)
    requires Taken(s0, u0, s, u, frames, total)
    ensures Spare(s, frames, total)
  {
  }

  lemma TakenReturned(s0: Space, u0: set<nat>, s: Space, u: set<nat>, t: Space, w: set<nat>, frames: seq<nat>, total: nat)
    requires Taken(s0, u0, s, u, frames, total) && Tables(t) == Tables(s) && w == u - FrameSet(frames, |frames|)
    ensures Grown(s0, u0, t, w)
  {
    hide Tables;
    var fs := FrameSet(frames, |frames|);
    assert forall x :: x in fs ==> x !in Tables(s);
  }

  /** The state of the loop that allocates: frames taken, pages fresh, and frames enough for those pages. */
  ghost predicate Underway(s0: Space, u0: set<nat>, m: map<nat, nat>, vaddr: nat, s: Space, u: set<nat>, frames: seq<nat>, total: nat) {
    && FreshPages(m, vaddr, |frames|) && Taken(s0, u0, s, u, frames, total) && (frames != [] ==> vaddr % 4096 == 0)
    && Budget(Dirs(s0), u0, vaddr, |frames|, Dirs(s), u, total)
  }

  lemma UnderwayMeans(s0: Space, u0: set<nat>, m: map<nat, nat>, vaddr: nat, s: Space, u: set<nat>, frames: seq<nat>, total: nat)
    requires Underway(s0, u0, m, vaddr, s, u, frames, total)
    ensures FreshPages(m, vaddr, |frames|) && Taken(s0, u0, s, u, frames, total) && (frames != [] ==> vaddr % 4096 == 0)
    ensures Budget(Dirs(s0), u0, vaddr, |frames|, Dirs(s), u, total)
  {
  }

  lemma UnderwayAtFirst(s0: Space, u0: set<nat>, m: map<nat, nat>, vaddr: nat, flags: nat, total: nat)
    ensures Underway(s0, u0, m, vaddr, s0, u0, [], total) && Extended(m, vaddr, EntriesOf([], flags)) == m
  {
    FreshNone(m, vaddr);
    TakenNone(s0, u0, m, vaddr, flags, total);
    BudgetAtFirst(s0, u0, vaddr, total);
  }

  lemma UnderwayOneMore(s0: Space, u0: set<nat>, m: map<nat, nat>, vaddr: nat, flags: nat, s: Space, u: set<nat>, t: Space, w: set<nat>, frames: seq<nat>, total: nat, f: nat)
    requires Underway(s0, u0, m, vaddr, s, u, frames, total) && SpaceOk(s) && SpaceOk(t) && Tables(s) <= u && w <= Below(total)
    requires Grown(s, u + {f}, t, w) && Dirs(t) == Dirs(s) + {DirIndex(vaddr, |frames|)}
    requires 0 < f < total && f !in u && forall k :: 0 <= k < f ==> k in u
    requires Address(vaddr, |frames|) % 4096 == 0 && PageAt(vaddr, |frames|) !in Extended(m, vaddr, EntriesOf(frames, flags))
    ensures Underway(s0, u0, m, vaddr, t, w, frames + [f], total)
  {
    hide SpaceOk, Tables, Dirs, Grown, Budget, Taken, FreshPages, Extended, EntriesOf, Address;
    AlignedStep(vaddr, |frames|);
    BudgetGoesOn(Dirs(s0), u0, vaddr, |frames|, s, u, t, w, f, total);
    TakenOneMore(s0, u0, s, u, t, w, frames, total, f);
    EntriesLength(frames, flags);
    FreshOneMore(m, vaddr, EntriesOf(frames, flags));
  }

  lemma EntriesLength(frames: seq<nat>, flags: nat)
    ensures |EntriesOf(frames, flags)| == |frames|
  {
  }

  lemma TakenMeans(s0: Space, u0: set<nat>, s: Space, u: set<nat>, frames: seq<nat>, total: nat)
    requires Taken(s0, u0, s, u, frames, total)
    ensures FrameSet(frames, |frames|) !! u0 && |FrameSet(frames, |frames|)| == |frames| && Grown(s0, u0 + FrameSet(frames, |frames|), s, u)
  {
    DistinctFrames(frames, |frames|);
  }

  lemma {:induction false} DistinctFrames(frames: seq<nat>, n: nat)
    requires n <= |frames| && forall i, j :: 0 <= i < j < |frames| ==> frames[i] != frames[j]
    ensures |FrameSet(frames, n)| == n
  {
    if n == 0 {
      assert FrameSet(frames, 0) == {};
    } else {
      DistinctFrames(frames, n - 1);
      assert FrameSet(frames, n) == FrameSet(frames, n - 1) + {frames[n - 1]};
    }
  }

  lemma EntriesOneMore(m: map<nat, nat>, vaddr: nat, frames: seq<nat>, flags: nat, f: nat)
    ensures Extended(m, vaddr, EntriesOf(frames + [f], flags))
         == Extended(m, vaddr, EntriesOf(frames, flags))[PageAt(vaddr, |frames|) := MakeEntry(f * 4096, flags)]
  {
    assert EntriesOf(frames + [f], flags) == EntriesOf(frames, flags) + [MakeEntry(f * 4096, flags)];
    ExtendedBy(m, vaddr, EntriesOf(frames, flags), MakeEntry(f * 4096, flags));
  }

  lemma AlignedStep(vaddr: nat, i: nat)
    ensures Address(vaddr, i) % 4096 == vaddr % 4096
  {
  }

  /** The page to be rolled back next is still mapped to its frame. */
  lemma StillMapped(m: map<nat, nat>, vaddr: nat, frames: seq<nat>, flags: nat, j: nat)
    requires j < |frames| && FreshPages(m, vaddr, |frames|) && flags < 4096 && vaddr % 4096 == 0
    ensures var e := Extended(m, vaddr, EntriesOf(frames, flags)) - PageSet(vaddr, j);
      PageAt(vaddr, j) in e && e[PageAt(vaddr, j)] / 4096 * 4096 == frames[j] * 4096 && Address(vaddr, j) % 4096 == 0
  {
    hide Address, Extended, PageSet;
    ExtendedMeans(m, vaddr, EntriesOf(frames, flags), j);
    MadeEntry(frames[j] * 4096, flags);
    AlignedStep(vaddr, j);
  }

  /** The first j pages have been unmapped again and their frames given back. */
  ghost predicate Undone(m: map<nat, nat>, vaddr: nat, frames: seq<nat>, flags: nat, u0: set<nat>, j: nat, now: map<nat, nat>, u: set<nat>) {
    j <= |frames| && now == Extended(m, vaddr, EntriesOf(frames, flags)) - PageSet(vaddr, j) && u == u0 - FrameSet(frames, j)
  }

  lemma UndoneNone(m: map<nat, nat>, vaddr: nat, frames: seq<nat>, flags: nat, u: set<nat>, total: nat)
    ensures Undone(m, vaddr, frames, flags, u, 0, Extended(m, vaddr, EntriesOf(frames, flags)), u)
  {
    RemoveNone(Extended(m, vaddr, EntriesOf(frames, flags)), vaddr);
    RemoveNoFrame(u, frames);
  }

  lemma UndoneOneMore(m: map<nat, nat>, vaddr: nat, frames: seq<nat>, flags: nat, u0: set<nat>, j: nat, now: map<nat, nat>, u: set<nat>, s: Space, total: nat)
    requires Undone(m, vaddr, frames, flags, u0, j, now, u) && j < |frames| && FreshPages(m, vaddr, |frames|) && flags < 4096 && vaddr % 4096 == 0
    requires Spare(s, frames, total)
    ensures PageAt(vaddr, j) in now && now[PageAt(vaddr, j)] / 4096 * 4096 == frames[j] * 4096
    ensures 0 < frames[j] < total && frames[j] !in Tables(s)
    ensures Undone(m, vaddr, frames, flags, u0, j + 1, now - {PageAt(vaddr, j)}, u - {frames[j]})
  {
    hide Extended, FreshPages, EntriesOf, PageSet, FrameSet, Spare, PageAt;
    StillMapped(m, vaddr, frames, flags, j);
    SpareFrame(s, frames, total, j);
    RemoveOneMore(Extended(m, vaddr, EntriesOf(frames, flags)), vaddr, j);
    RemoveFrame(u0, frames, j);
  }

  lemma UndoneAll(m: map<nat, nat>, vaddr: nat, frames: seq<nat>, flags: nat, u0: set<nat>, now: map<nat, nat>, u: set<nat>)
    requires Undone(m, vaddr, frames, flags, u0, |frames|, now, u) && FreshPages(m, vaddr, |frames|)
    ensures now == m && u == u0 - FrameSet(frames, |frames|)
  {
    hide Extended, FreshPages, EntriesOf, PageSet, FrameSet;
    ExtendedAndBack(m, vaddr, EntriesOf(frames, flags));
  }

  lemma SpareFrame(s: Space, frames: seq<nat>, total: nat, j: nat)
    requires Spare(s, frames, total) && j < |frames|
    ensures 0 < frames[j] < total && frames[j] !in Tables(s)
  {
  }

  lemma SpareStays(s: Space, t: Space, frames: seq<nat>, total: nat)
    requires Spare(s, frames, total) && Tables(t) == Tables(s)
    ensures Spare(t, frames, total)
  {
  }

  lemma RemoveNoFrame(u: set<nat>, frames: seq<nat>)
    ensures u - FrameSet(frames, 0) == u
  {
  }

  lemma RemoveFrame(u: set<nat>, frames: seq<nat>, j: nat)
    requires j < |frames|
    ensures u - FrameSet(frames, j) - {frames[j]} == u - FrameSet(frames, j + 1)
  {
    assert FrameSet(frames, j + 1) == FrameSet(frames, j) + {frames[j]};
  }

  // ---- Runs of pages on the map

  /** Addresses wrap around at 4 GB. */
  function Address(vaddr: nat, i: nat): (a: nat)
    ensures a < ADDRESS_MOD
  {
    (vaddr + i * 4096) % ADDRESS_MOD
  }

  function PageAt(vaddr: nat, i: nat): nat {
    Address(vaddr, i) / 4096
  }

  function PageSet(vaddr: nat, n: nat): set<nat> {
    if n == 0 then {} else PageSet(vaddr, n - 1) + {PageAt(vaddr, n - 1)}
  }

  /** The entries of count pages mapped to consecutive addresses. */
  function EntriesFor(paddr: nat, flags: nat, count: nat): (es: seq<nat>)
    ensures |es| == count
  {
    if count == 0 then [] else EntriesFor(paddr, flags, count - 1) + [MakeEntry(Address(paddr, count - 1), flags)]
  }

  /** m with the pages from vaddr on mapped to the entries es. */
  function Extended(m: map<nat, nat>, vaddr: nat, es: seq<nat>): map<nat, nat>
    decreases |es|
  {
    if es == [] then m else Extended(m, vaddr, es[..|es| - 1])[PageAt(vaddr, |es| - 1) := es[|es| - 1]]
  }

  /** The n pages from vaddr on are different pages that m does not map. */
  predicate FreshPages(m: map<nat, nat>, vaddr: nat, n: nat) {
    forall i :: 0 <= i < n ==> PageAt(vaddr, i) !in m && PageAt(vaddr, i) !in PageSet(vaddr, i)
  }

  lemma FreshNone(m: map<nat, nat>, vaddr: nat)
    ensures FreshPages(m, vaddr, 0)
  {
  }

  lemma {:induction false} ExtendedKeys(m: map<nat, nat>, vaddr: nat, es: seq<nat>)
    ensures Extended(m, vaddr, es).Keys == m.Keys + PageSet(vaddr, |es|)
    decreases |es|
  {
    if es != [] {
      ExtendedKeys(m, vaddr, es[..|es| - 1]);
    }
  }

  lemma FreshOneMore(m: map<nat, nat>, vaddr: nat, es: seq<nat>)
    requires FreshPages(m, vaddr, |es|) && PageAt(vaddr, |es|) !in Extended(m, vaddr, es)
    ensures FreshPages(m, vaddr, |es| + 1)
  {
    ExtendedKeys(m, vaddr, es);
  }

  /** Unmapping all the pages again gives m back. */
  lemma {:induction false} ExtendedAndBack(m: map<nat, nat>, vaddr: nat, es: seq<nat>)
    requires FreshPages(m, vaddr, |es|)
    ensures Extended(m, vaddr, es) - PageSet(vaddr, |es|) == m
    decreases |es|
  {
    if es != [] {
      var n := |es| - 1;
      ExtendedAndBack(m, vaddr, es[..n]);
      assert PageAt(vaddr, n) !in m;
      assert Extended(m, vaddr, es) - PageSet(vaddr, n + 1) == Extended(m, vaddr, es[..n]) - PageSet(vaddr, n);
    }
  }

  lemma RemoveNone(e: map<nat, nat>, vaddr: nat)
    ensures e - PageSet(vaddr, 0) == e
  {
  }

  lemma RemoveOneMore(e: map<nat, nat>, vaddr: nat, j: nat)
    ensures e - PageSet(vaddr, j) - {PageAt(vaddr, j)} == e - PageSet(vaddr, j + 1)
  {
    assert PageSet(vaddr, j + 1) == PageSet(vaddr, j) + {PageAt(vaddr, j)};
  }

  lemma ExtendedNone(m: map<nat, nat>, vaddr: nat, paddr: nat, flags: nat)
    ensures Extended(m, vaddr, EntriesFor(paddr, flags, 0)) == m
  {
  }

  lemma ExtendedOneMore(m: map<nat, nat>, vaddr: nat, paddr: nat, flags: nat, i: nat)
    ensures Extended(m, vaddr, EntriesFor(paddr, flags, i + 1))
         == Extended(m, vaddr, EntriesFor(paddr, flags, i))[PageAt(vaddr, i) := MakeEntry(Address(paddr, i), flags)]
  {
    ExtendedBy(m, vaddr, EntriesFor(paddr, flags, i), MakeEntry(Address(paddr, i), flags));
  }

  lemma ExtendedBy(m: map<nat, nat>, vaddr: nat, es: seq<nat>, e: nat)
    ensures Extended(m, vaddr, es + [e]) == Extended(m, vaddr, es)[PageAt(vaddr, |es|) := e]
  {
    var fs := es + [e];
    assert fs[..|fs| - 1] == es;
  }

  /** What a successful call means: page i has entry i, and all other pages are as before. */
  lemma {:induction false} ExtendedMeans(m: map<nat, nat>, vaddr: nat, es: seq<nat>, i: nat)
    requires FreshPages(m, vaddr, |es|) && i < |es|
    ensures PageAt(vaddr, i) !in m && PageAt(vaddr, i) in Extended(m, vaddr, es) && Extended(m, vaddr, es)[PageAt(vaddr, i)] == es[i]
    decreases |es|
  {
    hide PageAt, PageSet, Extended;
    var n := |es| - 1;
    assert PageAt(vaddr, i) !in m && PageAt(vaddr, n) !in PageSet(vaddr, n);
    assert es == es[..n] + [es[n]];
    ExtendedBy(m, vaddr, es[..n], es[n]);
    if i < n {
      ExtendedMeans(m, vaddr, es[..n], i);
      InPageSet(vaddr, n, i);
    }
  }

  lemma {:induction false} ExtendedKeeps(m: map<nat, nat>, vaddr: nat, es: seq<nat>, v: nat)
    requires v !in PageSet(vaddr, |es|)
    ensures v in Extended(m, vaddr, es) <==> v in m
    ensures v in m ==> Extended(m, vaddr, es)[v] == m[v]
    decreases |es|
  {
    hide Address;
    if es != [] {
      ExtendedKeeps(m, vaddr, es[..|es| - 1], v);
    }
  }

  lemma {:induction false} InPageSet(vaddr: nat, n: nat, i: nat)
    requires i < n
    ensures PageAt(vaddr, i) in PageSet(vaddr, n)
  {
    if i < n - 1 {
      InPageSet(vaddr, n - 1, i);
    }
  }

  lemma GrownTwice(s0: Space, u0: set<nat>, s: Space, u: set<nat>, t: Space, w: set<nat>)
    requires Grown(s0, u0, s, u) && Grown(s, u, t, w)
    ensures Grown(s0, u0, t, w)
  {
  }

  // ---- Gaps

  ghost predicate FreeAt(m: map<nat, nat>, p: nat, i: nat) {
    p + i !in m
  }

  ghost predicate GapIn(m: map<nat, nat>, lo: nat, hi: nat, count: nat, p: nat) {
    lo <= p && p + count <= hi && forall i :: 0 <= i < count ==> FreeAt(m, p, i)
  }

  ghost predicate LowestGap(m: map<nat, nat>, lo: nat, hi: nat, count: nat, p: nat) {
    GapIn(m, lo, hi, count, p) && forall q: nat :: GapIn(m, lo, hi, count, q) ==> p <= q
  }

  /** The last address the search considers, in 32-bit arithmetic. */
  function Limit(end: nat, count: nat): nat {
    (end - count * 4096) % ADDRESS_MOD
  }

  ghost predicate WithinBound(end: nat, count: nat, addr: nat) {
    addr <= Limit(end, count) ==> addr + count * 4096 <= end
  }

  /** The bound keeps the gap below end just when count pages fit below end; otherwise the subtraction wraps around. */
  lemma LimitIsSound(end: nat, count: nat)
    requires end < ADDRESS_MOD && end % PAGE_SIZE == 0 && count * 4096 < ADDRESS_MOD
    ensures (forall addr: nat :: WithinBound(end, count, addr)) <==> count * 4096 <= end
    ensures count * 4096 <= end ==> Limit(end, count) == end - count * 4096
  {
    if count * 4096 > end {
      assert !WithinBound(end, count, 0);
    }
  }

  // ---- The search, which counts the pages it passes from page lo on

  ghost predicate Hits(m: map<nat, nat>, p: nat, k: nat) {
    (p + k) % PAGES in m
  }

  ghost predicate BlockedAt(m: map<nat, nat>, p: nat, count: nat) {
    exists k: nat :: k < count && Hits(m, p, k)
  }

  /** The search tries the first page, and each page behind a mapped one. */
  ghost predicate StartsAt(m: map<nat, nat>, lo: nat, x: nat) {
    x == 0 || Hits(m, lo, x - 1)
  }

  /** After t pages none of which begins a free run, with every page tried within the bound, the search tries another. */
  ghost predicate Searched(m: map<nat, nat>, lo: nat, bound: nat, count: nat, t: nat) {
    && StartsAt(m, lo, t)
    && forall x: nat :: x < t ==> Passed(m, lo, bound, count, x)
  }

  ghost predicate Passed(m: map<nat, nat>, lo: nat, bound: nat, count: nat, x: nat) {
    BlockedAt(m, lo + x, count) && (StartsAt(m, lo, x) ==> (lo + x) % PAGES * 4096 <= bound)
  }

  /** The first page from p on that is mapped is i pages away. */
  ghost predicate FirstHit(m: map<nat, nat>, p: nat, i: nat) {
    Hits(m, p, i) && NoHits(m, p, i)
  }

  ghost predicate NoHits(m: map<nat, nat>, p: nat, count: nat) {
    forall k: nat :: k < count ==> !Hits(m, p, k)
  }

  /** The search comes to a page beyond the bound, or to the first run of count free pages. */
  ghost predicate Outcome(m: map<nat, nat>, lo: nat, bound: nat, count: nat, r: nat) {
    exists t: nat :: Searched(m, lo, bound, count, t) &&
      if (lo + t) % PAGES * 4096 <= bound then !BlockedAt(m, lo + t, count) && r == (lo + t) % PAGES * 4096 else r == 0
  }

  /** No run of count pages is free anywhere, and every page the search can try is within the bound. */
  ghost predicate GoesRound(m: map<nat, nat>, lo: nat, bound: nat, count: nat) {
    && (forall p: nat :: p < PAGES ==> BlockedAt(m, p, count))
    && lo * 4096 <= bound
    && forall v: nat :: v in m ==> (v + 1) % PAGES * 4096 <= bound
  }

  /** What goes round never ends: from a page within the bound the search goes on to another one. */
  lemma GoesOn(m: map<nat, nat>, lo: nat, bound: nat, count: nat, p: nat, i: nat)
    requires GoesRound(m, lo, bound, count) && p < PAGES
    requires FirstHit(m, p, i)
    ensures i < count && (p + i + 1) % PAGES * 4096 <= bound
  {
    assert BlockedAt(m, p, count);
    PageAfter(p + i);
  }

  /** The smallest such case: all 4 GB are asked for, and one page is mapped. */
  lemma OnePageGoesRound(v: nat, e: nat, start: nat, end: nat)
    requires start <= end < ADDRESS_MOD && (v + 1) * 4096 <= end
    ensures GoesRound(map[v := e], start / 4096, Limit(end / 4096 * 4096, PAGES), PAGES)
  {
    var m := map[v := e];
    assert Limit(end / 4096 * 4096, PAGES) == end / 4096 * 4096;
    forall p: nat | p < PAGES
      ensures BlockedAt(m, p, PAGES)
    {
      assert Hits(m, p, (v + PAGES - p) % PAGES);
    }
  }

  /** A result other than 0 ends below end exactly if count pages fit there at all; otherwise the bound has wrapped around. */
  lemma EndsBelowIff(m: map<nat, nat>, start: nat, end: nat, count: nat, r: nat)
    requires start < ADDRESS_MOD && end < ADDRESS_MOD && count < ADDRESS_MOD && r != 0
    requires Outcome(m, start / 4096, Limit(end / 4096 * 4096, count), count, r)
    ensures r % 4096 == 0 && forall k :: 0 <= k < count ==> PageAt(r, k) !in m
    ensures r + count * 4096 <= end <==> count * 4096 <= end / 4096 * 4096
  {
    hide Limit;
    var bound := Limit(end / 4096 * 4096, count);
    var t: nat :| Searched(m, start / 4096, bound, count, t) && r == (start / 4096 + t) % PAGES * 4096 <= bound
                  && !BlockedAt(m, start / 4096 + t, count);
    forall k | 0 <= k < count
      ensures PageAt(r, k) !in m
    {
      assert !Hits(m, start / 4096 + t, k);
      PageStep(r, start / 4096 + t, k);
    }
    if count * 4096 <= end / 4096 * 4096 {
      LimitIsSound(end / 4096 * 4096, count);
    } else {
      BeyondEnd(r, end, count);
    }
  }

  /** The outcome is determined by the map, the start, the bound and the count. */
  lemma OneOutcome(m: map<nat, nat>, lo: nat, bound: nat, count: nat, r: nat, r': nat)
    requires Outcome(m, lo, bound, count, r) && Outcome(m, lo, bound, count, r')
    ensures r == r'
  {
    hide BlockedAt;
    var t: nat :| Searched(m, lo, bound, count, t) &&
      if (lo + t) % PAGES * 4096 <= bound then !BlockedAt(m, lo + t, count) && r == (lo + t) % PAGES * 4096 else r == 0;
    var u: nat :| Searched(m, lo, bound, count, u) &&
      if (lo + u) % PAGES * 4096 <= bound then !BlockedAt(m, lo + u, count) && r' == (lo + u) % PAGES * 4096 else r' == 0;
    assert t < u ==> Passed(m, lo, bound, count, t);
    assert u < t ==> Passed(m, lo, bound, count, u);
  }

  lemma BeyondEnd(r: nat, end: nat, count: nat)
    requires count * 4096 > end / 4096 * 4096
    ensures r + count * 4096 > end
  {
    assert count > end / 4096;
  }

  lemma SearchedNone(m: map<nat, nat>, lo: nat, bound: nat, count: nat)
    ensures Searched(m, lo, bound, count, 0)
  {
  }

  lemma SearchedOn(m: map<nat, nat>, lo: nat, bound: nat, count: nat, t: nat, i: nat)
    requires Searched(m, lo, bound, count, t) && (lo + t) % PAGES * 4096 <= bound
    requires i < count && FirstHit(m, lo + t, i)
    ensures Searched(m, lo, bound, count, t + i + 1)
  {
    assert lo + (t + i) == lo + t + i;
    forall x: nat | x < t + i + 1
      ensures Passed(m, lo, bound, count, x)
    {
      if t <= x {
        assert lo + x + (t + i - x) == lo + t + i;
        assert Hits(m, lo + x, t + i - x);
        if t < x {
          assert lo + t + (x - 1 - t) == lo + (x - 1);
          assert !Hits(m, lo + t, x - 1 - t);
        }
      }
    }
  }

  /** How many pages the search passes from page lo to page p. */
  function Steps(lo: nat, p: nat): (x: nat)
    requires lo < PAGES && p < PAGES
    ensures x < PAGES && (lo + x) % PAGES == p && (lo + (x + 1)) % PAGES == (p + 1) % PAGES
  {
    if lo <= p then p - lo else p + PAGES - lo
  }

  /** Once more than all pages are passed, each of them has been tried or passed. */
  lemma HasGoneRound(m: map<nat, nat>, lo: nat, bound: nat, count: nat, t: nat)
    requires Searched(m, lo, bound, count, t) && lo < PAGES < t && forall v :: v in m ==> v < PAGES
    ensures GoesRound(m, lo, bound, count)
  {
    hide BlockedAt, Steps;
    forall p: nat | p < PAGES
      ensures BlockedAt(m, p, count)
    {
      var x := Steps(lo, p);
      assert Passed(m, lo, bound, count, x);
      BlockedRound(m, lo + x, count);
    }
    assert Passed(m, lo, bound, count, 0);
    forall v: nat | v in m
      ensures (v + 1) % PAGES * 4096 <= bound
    {
      var x := Steps(lo, v);
      assert Hits(m, lo, x);
      assert Passed(m, lo, bound, count, x + 1);
    }
  }

  lemma BlockedRound(m: map<nat, nat>, p: nat, count: nat)
    ensures BlockedAt(m, p, count) <==> BlockedAt(m, p % PAGES, count)
  {
    forall k: nat
      ensures Hits(m, p, k) <==> Hits(m, p % PAGES, k)
    {
      SamePage(p, k);
    }
  }

  lemma Finds(m: map<nat, nat>, lo: nat, bound: nat, count: nat, t: nat)
    requires Searched(m, lo, bound, count, t) && (lo + t) % PAGES * 4096 <= bound
    requires NoHits(m, lo + t, count)
    ensures !BlockedAt(m, lo + t, count)
    ensures Outcome(m, lo, bound, count, (lo + t) % PAGES * 4096) && !GoesRound(m, lo, bound, count)
  {
    BlockedRound(m, lo + t, count);
  }

  lemma FindsNothing(m: map<nat, nat>, lo: nat, bound: nat, count: nat, t: nat)
    requires Searched(m, lo, bound, count, t) && lo < PAGES && (lo + t) % PAGES * 4096 > bound
    ensures Outcome(m, lo, bound, count, 0) && !GoesRound(m, lo, bound, count)
  {
    hide BlockedAt;
    if t > 0 {
      PageAfter(lo + t - 1);
    }
  }

  /** While nothing wraps around, the page tried is the lowest gap, or it is too high and there is none. */
  lemma Gaps(m: map<nat, nat>, lo: nat, hi: nat, count: nat, t: nat)
    requires count <= hi < PAGES && (lo + t <= hi || t == 0) && Searched(m, lo, (hi - count) * 4096, count, t)
    requires lo + t <= hi - count ==> !BlockedAt(m, lo + t, count)
    ensures if exists p: nat :: GapIn(m, lo, hi, count, p) then lo + t <= hi - count && LowestGap(m, lo, hi, count, lo + t)
            else lo + t > hi - count
  {
    if lo + t <= hi - count {
      var p := lo + t;
      forall k: nat | k < count
        ensures FreeAt(m, p, k)
      {
        assert !Hits(m, p, k);
      }
      assert GapIn(m, lo, hi, count, p);
    }
    forall q: nat | GapIn(m, lo, hi, count, q)
      ensures lo + t <= q
    {
      assert q < lo + t ==> Passed(m, lo, (hi - count) * 4096, count, q - lo);
      GapIsFree(m, lo, hi, count, q);
    }
  }

  lemma GapIsFree(m: map<nat, nat>, lo: nat, hi: nat, count: nat, q: nat)
    requires GapIn(m, lo, hi, count, q) && hi < PAGES
    ensures !BlockedAt(m, q, count)
  {
    forall k: nat | k < count
      ensures !Hits(m, q, k)
    {
      assert FreeAt(m, q, k);
    }
  }

  lemma SamePage(p: nat, k: nat)
    ensures (p % PAGES + k) % PAGES == (p + k) % PAGES
  {
  }

  lemma PageAfter(p: nat)
    ensures (p % PAGES + 1) % PAGES == (p + 1) % PAGES
  {
  }

  /** The address k pages on. */
  lemma PageStep(addr: nat, p: nat, k: nat)
    requires addr == p % PAGES * 4096
    ensures (addr + k * 4096) % ADDRESS_MOD == (p + k) % PAGES * 4096
    ensures (addr + k * 4096) % ADDRESS_MOD / 4096 == (p + k) % PAGES
  {
    SamePage(p, k);
    PageRound(p % PAGES + k);
  }

  lemma PageRound(x: nat)
    ensures x * 4096 % ADDRESS_MOD == x % PAGES * 4096
  {
  }

  lemma PagesBelow(a: nat)
    requires a < ADDRESS_MOD
    ensures a / 4096 < PAGES && a / 4096 % PAGES == a / 4096
  {
  }

  lemma PageIndex(vaddr: nat)
    requires vaddr < ADDRESS_MOD
    ensures vaddr / 4096 < PAGES && vaddr / 4096 / 1024 == vaddr / 0x40_0000 < ENTRIES
  {
  }

  lemma GrownNot(s: Space, u: set<nat>)
    ensures Grown(s, u, s, u)
  {
  }

  lemma GrownStored(s0: Space, u0: set<nat>, s: Space, u: set<nat>, r: Space)
    requires Grown(s0, u0, s, u) && Tables(r) == Tables(s)
    ensures Grown(s0, u0, r, u)
  {
  }

  lemma MappedHasTable(s: Space, v: nat)
    requires SpaceOk(s) && v < PAGES
    ensures v in MapOf(s) ==> TableAt(s, v / 1024)
  {
    ZeroIsAbsent();
  }

  lemma EntryAt(s: Space, v: nat)
    requires SpaceOk(s) && v < PAGES && TableAt(s, v / 1024)
    ensures Entry(s, v) == s.mem[WordOf(s, v)]
  {
  }

  lemma NoTableNoEntry(s: Space, v: nat)
    requires SpaceOk(s) && v < PAGES && !TableAt(s, v / 1024)
    ensures v !in MapOf(s)
  {
  }

  lemma EntryIs(s: Space, v: nat)
    requires SpaceOk(s) && v < PAGES
    ensures v in MapOf(s) <==> Present(Entry(s, v))
    ensures v in MapOf(s) ==> MapOf(s)[v] == Entry(s, v)
    ensures !Present(Entry(s, v)) ==> MapOf(s) - {v} == MapOf(s)
  {
  }
}
