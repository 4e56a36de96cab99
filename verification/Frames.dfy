// The frame allocator: one bit for each 4096-byte page of physical memory.
module Frames {
  const PAGE_SIZE: nat := 4096
  const BITMAP_SIZE: nat := 4096
  const MAX_PAGES: nat := 32768
  const ADDRESS_MOD: nat := 0x1_0000_0000

  // ---- Bits of a byte

  function Mask(k: nat): bv8
    requires k < 8
  {
    if k == 0 then 1 else if k == 1 then 2 else if k == 2 then 4 else if k == 3 then 8
    else if k == 4 then 16 else if k == 5 then 32 else if k == 6 then 64 else 128
  }

  predicate Bit(b: bv8, k: nat)
    requires k < 8
  {
    b & Mask(k) != 0
  }

  function SetBit(b: bv8, k: nat): bv8
    requires k < 8
  {
    b | Mask(k)
  }

  function ClearBit(b: bv8, k: nat): bv8
    requires k < 8
  {
    b & !Mask(k)
  }

  lemma SetBits(b: bv8, k: nat, j: nat)
    requires k < 8 && j < 8
    ensures Bit(SetBit(b, k), j) <==> j == k || Bit(b, j)
    ensures Bit(ClearBit(b, k), j) <==> j != k && Bit(b, j)
  {
  }

  lemma BitsDetermine(b: bv8, c: bv8)
    requires forall k :: 0 <= k < 8 ==> (Bit(b, k) <==> Bit(c, k))
    ensures b == c
  {
    assert Bit(b, 0) == Bit(c, 0) && Bit(b, 1) == Bit(c, 1) && Bit(b, 2) == Bit(c, 2) && Bit(b, 3) == Bit(c, 3);
    assert Bit(b, 4) == Bit(c, 4) && Bit(b, 5) == Bit(c, 5) && Bit(b, 6) == Bit(c, 6) && Bit(b, 7) == Bit(c, 7);
  }

  // ---- The bitmap as a sequence of bits

  /** The pages in use among the first total. */
  function UsedOf(bits: seq<bool>, total: nat): set<nat> {
    set i | 0 <= i < |bits| && i < total && bits[i]
  }

  /** The n bits from start on set or cleared. */
  function Filled(bits: seq<bool>, start: nat, n: nat, v: bool): (r: seq<bool>)
    ensures |r| == |bits|
  {
    seq(|bits|, i requires 0 <= i < |bits| => if start <= i < start + n then v else bits[i])
  }

  ghost predicate FreeRun(bits: seq<bool>, total: nat, start: nat, n: nat) {
    start + n <= total <= |bits| && forall i :: start <= i < start + n ==> !bits[i]
  }

  /** The lowest run of n free pages. */
  ghost predicate LowestRun(bits: seq<bool>, total: nat, start: nat, n: nat) {
    FreeRun(bits, total, start, n) && forall s :: 0 <= s < start ==> !FreeRun(bits, total, s, n)
  }

  /** No run of n free pages ends at or before page i. */
  ghost predicate NoRunBefore(bits: seq<bool>, n: nat, i: nat) {
    forall s :: 0 <= s && s + n <= i ==> !FreeRun(bits, i, s, n)
  }

  lemma FilledNone(bits: seq<bool>, start: nat, v: bool)
    ensures Filled(bits, start, 0, v) == bits
  {
  }

  lemma FilledOneMore(bits: seq<bool>, start: nat, n: nat, v: bool)
    requires start + n < |bits|
    ensures Filled(bits, start, n, v)[start + n := v] == Filled(bits, start, n + 1, v)
  {
  }

  /** Taking a free run and giving it back restores every bit. */
  lemma FillThenClear(bits: seq<bool>, total: nat, start: nat, n: nat)
    requires FreeRun(bits, total, start, n)
    ensures Filled(Filled(bits, start, n, true), start, n, false) == bits
  {
  }

  lemma UsedUpdate(bits: seq<bool>, total: nat, i: nat, v: bool)
    requires i < total <= |bits|
    ensures UsedOf(bits[i := v], total) == if v then UsedOf(bits, total) + {i} else UsedOf(bits, total) - {i}
  {
  }

  /** A run of n free pages adds n pages to those in use. */
  lemma {:induction false} UsedByRun(bits: seq<bool>, total: nat, start: nat, n: nat)
    requires FreeRun(bits, total, start, n) && total <= |bits|
    ensures |UsedOf(Filled(bits, start, n, true), total)| == |UsedOf(bits, total)| + n
    decreases n
  {
    if n == 0 {
      FilledNone(bits, start, true);
    } else {
      UsedByRun(bits, total, start, n - 1);
      FilledOneMore(bits, start, n - 1, true);
      UsedUpdate(Filled(bits, start, n - 1, true), total, start + n - 1, true);
      assert !bits[start + n - 1];
    }
  }

  /** How the scan of pmm_alloc_pages goes on: run counts the free pages just before page i. */
  ghost predicate Scanned(bits: seq<bool>, n: nat, i: nat, run: nat) {
    && run <= i <= |bits| && run < n && NoRunBefore(bits, n, i) && FreeRun(bits, i, i - run, run)
    && (run < i ==> bits[i - run - 1])
  }

  lemma ScanStep(bits: seq<bool>, n: nat, i: nat, run: nat)
    requires Scanned(bits, n, i, run) && i < |bits|
    ensures bits[i] ==> Scanned(bits, n, i + 1, 0)
    ensures !bits[i] && run + 1 < n ==> Scanned(bits, n, i + 1, run + 1)
    ensures !bits[i] && run + 1 == n ==> LowestRun(bits, i + 1, i - run, n)
  {
    var next := i + 1;
    forall s | 0 <= s && s + n <= next && (bits[i] || run + 1 < n || s < i - run)
      ensures !FreeRun(bits, next, s, n)
    {
      if s + n <= i {
        assert !FreeRun(bits, i, s, n);
      } else if bits[i] {
        assert s <= i < s + n;
      } else {
        assert s <= i - run - 1 < s + n;
      }
    }
  }

  /** Where the memory ends does not matter to a run within it. */
  lemma LowestWithin(bits: seq<bool>, i: nat, total: nat, start: nat, n: nat)
    requires LowestRun(bits, i, start, n) && i <= total <= |bits|
    ensures LowestRun(bits, total, start, n)
  {
    forall s | 0 <= s < start
      ensures !FreeRun(bits, total, s, n)
    {
      assert !FreeRun(bits, i, s, n);
    }
  }

  class Pmm {
    const bitmap: array<bv8>
    const totalPages: nat
    var usedPages: nat

    ghost predicate Shape() {
      bitmap.Length == BITMAP_SIZE && 0 < totalPages <= MAX_PAGES
    }

    function RawBit(i: nat): bool
      requires bitmap.Length == BITMAP_SIZE && i < MAX_PAGES
      reads bitmap
    {
      Bit(bitmap[i / 8], i % 8)
    }

    ghost function Bits(): (b: seq<bool>)
      requires Shape()
      reads bitmap
      ensures |b| == MAX_PAGES && forall i :: 0 <= i < MAX_PAGES ==> (b[i] <==> RawBit(i))
    {
      seq(MAX_PAGES, i requires 0 <= i < MAX_PAGES && Shape() reads bitmap => RawBit(i))
    }

    /** used_pages counts the pages in use, and page 0 is one of them, so that NULL is no free page. */
    ghost predicate Valid()
      reads this, bitmap
    {
      Shape() && usedPages == |UsedOf(Bits(), totalPages)| && Bits()[0]
    }

    /** The same bits mean the same bytes. */
    twostate lemma BytesRestored()
      requires Shape() && Bits() == old(Bits())
      ensures bitmap[..] == old(bitmap[..])
    {
      forall i | 0 <= i < BITMAP_SIZE
        ensures bitmap[i] == old(bitmap[i])
      {
        forall k | 0 <= k < 8
          ensures Bit(bitmap[i], k) <==> Bit(old(bitmap[i]), k)
        {
          assert (8 * i + k) / 8 == i && (8 * i + k) % 8 == k;
          assert Bits()[8 * i + k] == old(Bits())[8 * i + k];
          assert RawBit(8 * i + k) <==> old(RawBit(8 * i + k));
        }
        BitsDetermine(bitmap[i], old(bitmap[i]));
      }
    }

    /** A page beyond the memory counts as used. */
    function BitmapTest(i: nat): bool
      requires bitmap.Length == BITMAP_SIZE && totalPages <= MAX_PAGES
      reads bitmap
    {
      if i >= totalPages then true else RawBit(i)
    }

    /** Stores one bit. */
    method PutBit(i: nat, v: bool)
      requires Shape() && i < MAX_PAGES
      modifies bitmap
      ensures Bits() == old(Bits())[i := v]
    {
      hide Bit, SetBit, ClearBit;
      ghost var was := bitmap[..];
      if v {
        bitmap[i / 8] := SetBit(bitmap[i / 8], i % 8);
      } else {
        bitmap[i / 8] := ClearBit(bitmap[i / 8], i % 8);
      }
      forall j | 0 <= j < MAX_PAGES
        ensures Bits()[j] <==> if j == i then v else old(Bits())[j]
      {
        SetBits(was[i / 8], i % 8, j % 8);
        assert RawBit(j) <==> Bit(bitmap[j / 8], j % 8);
        assert old(RawBit(j)) <==> Bit(was[j / 8], j % 8);
        assert j / 8 == i / 8 && j % 8 == i % 8 ==> j == i;
      }
    }

    method BitmapSet(i: nat)
      requires Valid()
      modifies this`usedPages, bitmap
      ensures Valid() && Bits() == if i < totalPages then old(Bits())[i := true] else old(Bits())
    {
      hide Bit;
      if i >= totalPages {
        return;
      }
      assert BitmapTest(i) <==> Bits()[i];
      assert Bits()[i := Bits()[i]] == Bits();
      if !BitmapTest(i) {
        UsedUpdate(Bits(), totalPages, i, true);
        ghost var used := UsedOf(Bits(), totalPages);
        assert i !in used;
        PutBit(i, true);
        assert UsedOf(Bits(), totalPages) == used + {i};
        usedPages := usedPages + 1;
      }
    }

    method BitmapUnset(i: nat)
      requires Valid() && 0 < i
      modifies this`usedPages, bitmap
      ensures Valid() && Bits() == if i < totalPages then old(Bits())[i := false] else old(Bits())
    {
      hide Bit;
      if i >= totalPages {
        return;
      }
      assert BitmapTest(i) <==> Bits()[i];
      assert Bits()[i := Bits()[i]] == Bits();
      if BitmapTest(i) {
        UsedUpdate(Bits(), totalPages, i, false);
        ghost var used := UsedOf(Bits(), totalPages);
        assert i in used;
        PutBit(i, false);
        assert UsedOf(Bits(), totalPages) == used - {i};
        usedPages := usedPages - 1;
      }
    }

    /** The lowest free page, or 0 for NULL. */
    method AllocPage() returns (ptr: nat)
      requires Valid()
      modifies this`usedPages, bitmap
      ensures Valid()
      ensures if UsedOf(old(Bits()), totalPages) == Below(totalPages) then ptr == 0 && Bits() == old(Bits())
        else
          && ptr % PAGE_SIZE == 0 && 0 < ptr / PAGE_SIZE < totalPages && !old(Bits())[ptr / PAGE_SIZE]
          && (forall j :: 0 <= j < ptr / PAGE_SIZE ==> old(Bits())[j])
          && Bits() == old(Bits())[ptr / PAGE_SIZE := true]
    {
      hide Bit;
      ghost var bits := Bits();
      for i := 0 to totalPages
        invariant Bits() == bits && Valid() && forall j :: 0 <= j < i ==> bits[j]
      {
        if !BitmapTest(i) {
          assert i !in UsedOf(bits, totalPages) && i in Below(totalPages);
          BitmapSet(i);
          return i * PAGE_SIZE;
        }
      }
      return 0;
    }

    method FreePage(ptr: nat)
      requires Valid() && (ptr != 0 ==> PAGE_SIZE <= ptr)
      modifies this`usedPages, bitmap
      ensures Valid() && Bits() == if ptr != 0 && ptr / PAGE_SIZE < totalPages then old(Bits())[ptr / PAGE_SIZE := false] else old(Bits())
    {
      if ptr == 0 {
        return;
      }
      BitmapUnset(ptr / PAGE_SIZE);
    }

    /** The lowest run of count free pages, or 0 for NULL if there is none. */
    method AllocPages(count: nat) returns (ptr: nat)
      requires Valid()
      modifies this`usedPages, bitmap
      ensures Valid()
      ensures if count == 0 || (forall s :: 0 <= s < totalPages ==> !FreeRun(old(Bits()), totalPages, s, count)) then
          ptr == 0 && Bits() == old(Bits())
        else
          && ptr % PAGE_SIZE == 0 && 0 < ptr && LowestRun(old(Bits()), totalPages, ptr / PAGE_SIZE, count)
          && Bits() == Filled(old(Bits()), ptr / PAGE_SIZE, count, true) && usedPages == old(usedPages) + count
    {
      hide Bit;
      ghost var bits := Bits();
      if count == 0 {
        return 0;
      }
      var continuous: nat := 0;
      var startPage: nat := 0;
      for i := 0 to totalPages
        invariant Bits() == bits && Valid() && usedPages == old(usedPages)
        invariant Scanned(bits, count, i, continuous) && (0 < continuous ==> startPage + continuous == i)
      {
        ScanStep(bits, count, i, continuous);
        if !BitmapTest(i) {
          if continuous == 0 {
            startPage := i;
          }
          continuous := continuous + 1;
          if continuous == count {
            LowestWithin(bits, i + 1, totalPages, startPage, count);
            FillRun(startPage, count);
            UsedByRun(bits, totalPages, startPage, count);
            return startPage * PAGE_SIZE;
          }
        } else {
          continuous := 0;
        }
      }
      forall s | 0 <= s < totalPages
        ensures !FreeRun(bits, totalPages, s, count)
      {
      }
      return 0;
    }

    method FillRun(start: nat, count: nat)
      requires Valid() && FreeRun(Bits(), totalPages, start, count)
      modifies this`usedPages, bitmap
      ensures Valid() && Bits() == Filled(old(Bits()), start, count, true)
    {
      ghost var bits := Bits();
      FilledNone(bits, start, true);
      for j := start to start + count
        invariant Valid() && Bits() == Filled(bits, start, j - start, true)
      {
        FilledOneMore(bits, start, j - start, true);
        BitmapSet(j);
      }
    }

    /** Clears count bits, as far as there is memory. */
    method FreePages(ptr: nat, count: nat)
      requires Valid() && (ptr != 0 ==> PAGE_SIZE <= ptr)
      modifies this`usedPages, bitmap
      ensures Valid()
      ensures forall i :: 0 <= i < MAX_PAGES ==>
        (Bits()[i] <==> old(Bits())[i] && !(ptr != 0 && ptr / PAGE_SIZE <= i < ptr / PAGE_SIZE + count && i < totalPages))
    {
      if ptr == 0 || count == 0 {
        return;
      }
      var startPage := ptr / PAGE_SIZE;
      ghost var bits := Bits();
      for i := startPage to startPage + count
        invariant Valid() && forall j :: 0 <= j < MAX_PAGES ==> (Bits()[j] <==> bits[j] && !(startPage <= j < i && j < totalPages))
      {
        BitmapUnset(i);
      }
    }

    /** pmm_reserve_region; EndPageIff says when these are the pages that the region touches. */
    method ReserveRegion(paddr: nat, size: nat)
      requires Valid() && paddr < ADDRESS_MOD && size < ADDRESS_MOD
      modifies this`usedPages, bitmap
      ensures Valid()
      ensures forall i :: 0 <= i < MAX_PAGES ==>
        (Bits()[i] <==> old(Bits())[i] || (i < totalPages && paddr / PAGE_SIZE <= i < EndPage(paddr, size)))
      ensures paddr + size + PAGE_SIZE <= ADDRESS_MOD ==> forall i :: 0 <= i < totalPages && Touches(paddr, size, i) ==> Bits()[i]
    {
      hide EndPage, Touches;
      EndPageIff(paddr, size);
      var startPage, endPage := paddr / PAGE_SIZE, EndPage(paddr, size);
      ghost var bits := Bits();
      var i := startPage;
      while i < endPage
        invariant startPage <= i && (if startPage <= endPage then i <= endPage else i == startPage) && Valid()
        invariant forall j :: 0 <= j < MAX_PAGES ==> (Bits()[j] <==> bits[j] || (j < totalPages && startPage <= j < i))
      {
        BitmapSet(i);
        i := i + 1;
      }
      assert paddr + size + PAGE_SIZE <= ADDRESS_MOD ==> forall k :: 0 <= k < totalPages && Touches(paddr, size, k) ==> ReservedAsTouched(paddr, size, k);
    }

    /** Taking a run of pages and giving it back restores the bitmap, byte for byte. */
    method TakeAndGiveBack(count: nat) returns (ok: bool)
      requires Valid()
      modifies this`usedPages, bitmap
      ensures Valid() && bitmap[..] == old(bitmap[..]) && usedPages == old(usedPages)
      ensures ok <==> 0 < count && exists s :: 0 <= s < totalPages && FreeRun(old(Bits()), totalPages, s, count)
    {
      ghost var bits := Bits();
      var ptr := AllocPages(count);
      ok := ptr != 0;
      if ok {
        FillThenClear(bits, totalPages, ptr / PAGE_SIZE, count);
        FreePages(ptr, count);
        assert Bits() == bits;
      }
      BytesRestored();
    }
  }

  /** The page behind the region, in 32-bit arithmetic. */
  function EndPage(paddr: nat, size: nat): nat {
    (paddr + size + PAGE_SIZE - 1) % ADDRESS_MOD / PAGE_SIZE
  }

  /** Some byte of the region, or the first page of an empty one that starts inside it, lies in page i. */
  predicate Touches(paddr: nat, size: nat, i: nat) {
    paddr / PAGE_SIZE <= i && i * PAGE_SIZE < paddr + size
  }

  predicate ReservedAsTouched(paddr: nat, size: nat, i: nat) {
    Touches(paddr, size, i) <==> paddr / PAGE_SIZE <= i < EndPage(paddr, size)
  }

  /** The pages reserved are those that the region touches exactly if the sum in the source does not wrap around. */
  lemma EndPageIff(paddr: nat, size: nat)
    requires paddr < ADDRESS_MOD && size < ADDRESS_MOD
    ensures (forall i: nat :: ReservedAsTouched(paddr, size, i)) <==> paddr + size + PAGE_SIZE <= ADDRESS_MOD
  {
    var sum := paddr + size + PAGE_SIZE - 1;
    if sum < ADDRESS_MOD {
      assert sum % ADDRESS_MOD == sum;
      forall i: nat
        ensures ReservedAsTouched(paddr, size, i)
      {
        PageBound(i, paddr + size);
      }
    } else {
      var last: nat := ADDRESS_MOD / PAGE_SIZE - 1;
      assert Touches(paddr, size, last) && EndPage(paddr, size) <= last;
      assert !ReservedAsTouched(paddr, size, last);
    }
  }

  lemma PageBound(i: nat, x: nat)
    ensures i * PAGE_SIZE < x <==> i < (x + PAGE_SIZE - 1) / PAGE_SIZE
  {
  }

  function Below(n: nat): (s: set<nat>)
    ensures forall i :: i in s <==> 0 <= i < n
  {
    if n == 0 then {} else Below(n - 1) + {n - 1}
  }
}
