// blk_split and malloc of the two-level segregated fit allocator as they are compiled. The size of the
// remainder is an unsigned difference; the heap stays in order exactly if it does not wrap around.
module TlsfCompiled {
  import opened TlsfClasses
  import opened TlsfBlocks
  import opened TlsfLists
  import opened TlsfSteps
  import opened Tlsf

  const ADDRESS_WORDS: nat := 0x4000_0000

  /** The remainder in bytes, for a block of so many bytes that is cut to size. */
  function Remainder(have: nat, size: nat): (r: nat)
    ensures r < UINT_MOD
  {
    (have - size - 4 * OVERHEAD) % UINT_MOD
  }

  /** Below a second header the remainder is almost 4 GB. */
  lemma RemainderIs(words: nat, n: nat)
    requires n <= words < POOL_LIMIT
    ensures var r := Remainder(4 * words, 4 * n);
      if words >= n + OVERHEAD then r == 4 * (words - n - OVERHEAD) else r == UINT_MOD - 4 * (n + OVERHEAD - words) && r >= UINT_MOD - 8
  {
    var d := 4 * words - 4 * n - 4 * OVERHEAD;
    assert if d < 0 then d % UINT_MOD == d + UINT_MOD else d % UINT_MOD == d;
  }

  /** The comparison in front of a split tells what the remainder can hold exactly if the block has room for a second header. */
  lemma GuardIff(b: Blocks, a: nat, n: nat)
    requires a in b && n <= b[a].words < POOL_LIMIT
    ensures (Remainder(4 * b[a].words, 4 * n) >= TLSF_BLOCK_MIN <==> Splits(b, a, n)) <==> b[a].words >= n + OVERHEAD
  {
    RemainderIs(b[a].words, n);
  }

  /** A request that meets a free block of just its size: the comparison asks for a split, and there is nothing to split. */
  lemma GuardWraps(lo: nat)
    requires 0 < lo
    ensures var b := WithPool(map[], Pool(lo, lo + 10));
      && Ok(b) && GoodFit(b, TLSF_BLOCK_MIN, lo + 2)
      && Remainder(4 * b[lo + 2].words, TLSF_BLOCK_MIN) >= TLSF_BLOCK_MIN && !Splits(b, lo + 2, MIN_WORDS)
  {
    hide Bsr;
    var b := WithPool(map[], Pool(lo, lo + 10));
    WithPoolKeepsOk(map[], Pool(lo, lo + 10));
    SearchOfMin();
    assert forall x :: Reaches(b, TLSF_BLOCK_MIN, x) ==> x == lo + 2;
  }

  lemma SearchOfMin()
    ensures SearchSize(TLSF_BLOCK_MIN) == TLSF_BLOCK_MIN
  {
    PowerOfZero();
    assert Bsr(TLSF_BLOCK_MIN) == 4;
    assert Unit(TLSF_BLOCK_MIN) == 1;
  }

  /**
   * The pointer to the tail t as stored in word next. Pointers are counted in words, but in the place of the tail's own
   * size it will be read as a size, and there it counts in bytes.
   */
  function PointerIn(next: nat, t: nat): nat { if next == t + 1 then 4 * t else t }

  /** The words after the compiled split: header of the tail, prev_phys of the block the tail says is next, size of the block. */
  function SplitWords(mem: seq<nat>, a: nat, words: nat, n: nat): (r: seq<nat>)
    requires n <= words && a + OVERHEAD + words + 1 < |mem|
    ensures |r| == |mem|
  {
    var rest := Remainder(4 * words, 4 * n);
    if rest < TLSF_BLOCK_MIN then mem
    else
      var t := a + OVERHEAD + n;
      var m := mem[t + 1 := rest + 1][t := a];
      var next := (t + OVERHEAD + SizeOf(m[t + 1]) / 4) % ADDRESS_WORDS;
      var m' := if next < |m| then m[next := PointerIn(next, t)] else m;
      m'[a + 1 := WithSize(m'[a + 1], 4 * n)]
  }

  /** Whatever layout one takes the memory for: if block a stands in it, the memory does not spell it. */
  ghost predicate Lost(mem: seq<nat>, a: nat) {
    forall c: Blocks :: Ok(c) && a in c ==> !Spells(mem, c)
  }

  /** The compiled split writes what it should, or else leaves no layout with the block in it. */
  lemma SplitWordsIs(mem: seq<nat>, b: Blocks, a: nat, n: nat, nul: nat)
    requires Ok(b) && Shape(b, |mem|, nul) && Spells(mem, b) && |mem| <= ADDRESS_WORDS
    requires a in b && b[a].free && MIN_WORDS <= n <= b[a].words && End(b, a) in b && End(b, a) + 1 < |mem|
    ensures b[a].words >= n + OVERHEAD ==> SplitWords(mem, a, b[a].words, n) == CutWords(mem, b, a, n)
    ensures b[a].words < n + OVERHEAD ==> Lost(SplitWords(mem, a, b[a].words, n), a)
  {
    hide Ok, Shape, Spells, Local, SplitWords, CutWords, Splits, Flags;
    SizesOfFree(b, a);
    HeaderIs(mem, b, a);
    if b[a].words >= n + OVERHEAD {
      SplitFits(mem, b, a, n);
    } else {
      var m := SplitWords(mem, a, b[a].words, n);
      SplitWraps(mem, a, n, b[a]);
      forall c: Blocks | Ok(c) && a in c
        ensures !Spells(m, c)
      {
        TailContradicts(m, c, a, n, b[a]);
      }
    }
  }

  lemma SplitFits(mem: seq<nat>, b: Blocks, a: nat, n: nat)
    requires a in b && n + OVERHEAD <= b[a].words < POOL_LIMIT && End(b, a) + 1 < |mem| <= ADDRESS_WORDS && mem[a + 1] == Flags(b[a])
    ensures SplitWords(mem, a, b[a].words, n) == CutWords(mem, b, a, n)
  {
    hide Flags, SizeOf, WithSize;
    RemainderIs(b[a].words, n);
    FlagUpdates(b[a], n, false);
    TailSize(b[a].words - n - OVERHEAD);
  }

  lemma SplitWraps(mem: seq<nat>, a: nat, n: nat, x: Block)
    requires 0 < n <= x.words < n + OVERHEAD && x.words < POOL_LIMIT && a + OVERHEAD + x.words + 1 < |mem| <= ADDRESS_WORDS && mem[a + 1] == Flags(x)
    ensures var m, t := SplitWords(mem, a, x.words, n), a + OVERHEAD + n;
      m[a + 1] == Flags(x.(words := n)) && if x.words == n then m[t] == t else m[t] == a && m[t + 1] == 4 * t
  {
    hide Flags, SizeOf, WithSize, Remainder;
    RemainderIs(x.words, n);
    FlagUpdates(x, n, false);
    TailWraps(x.words, n, a + OVERHEAD + n);
  }

  /** The block says that it is free and n words long, so a header follows it; but that header denies one or the other. */
  lemma TailContradicts(m: seq<nat>, c: Blocks, a: nat, n: nat, x: Block)
    requires Ok(c) && a in c && 0 < n && a + OVERHEAD + n + 1 < |m|
    requires m[a + 1] == Flags(x.(words := n)) && x.free
    requires var t := a + OVERHEAD + n; m[t] == t || (m[t] == a && m[t + 1] == 4 * t)
    ensures !Spells(m, c)
  {
    hide Spells, Disjoint;
    var t := a + OVERHEAD + n;
    FlagBits(x.(words := n));
    FlagBits(c[a]);
    assert Local(c, a);
    if t in c {
      FlagBits(c[t]);
      FourTimes(t, c[t]);
    }
    SpelledAt(m, c, a);
    SpelledAt(m, c, t);
  }

  lemma SpelledAt(m: seq<nat>, c: Blocks, a: nat)
    ensures Spells(m, c) && a in c ==> Header(m, c, a)
  {
  }

  lemma FourTimes(t: nat, x: Block)
    ensures Flags(x) == 4 * t ==> !x.prevFree
  {
    FlagBits(x);
    LowBits(t, 0);
  }

  lemma TailSize(words: nat)
    ensures SizeOf(4 * words + 1) / 4 == words
  {
  }

  /** A tail that is said to be almost 4 GB long leads back to its own header. */
  lemma TailWraps(words: nat, n: nat, t: nat)
    requires n <= words < n + OVERHEAD && words < POOL_LIMIT && t + 1 < ADDRESS_WORDS
    ensures (t + OVERHEAD + SizeOf(Remainder(4 * words, 4 * n) + 1) / 4) % ADDRESS_WORDS == t + words - n
  {
    RemainderIs(words, n);
    var rest := Remainder(4 * words, 4 * n);
    assert rest == UINT_MOD - 4 * (n + OVERHEAD - words);
    TailSize(ADDRESS_WORDS - (n + OVERHEAD - words));
    var next := t + words - n;
    assert t + OVERHEAD + (ADDRESS_WORDS - (n + OVERHEAD - words)) == next + ADDRESS_WORDS;
    assert (next + ADDRESS_WORDS) % ADDRESS_WORDS == next;
  }

  /** The block that the tail says is next is the one behind the block, whether the remainder has wrapped around or not. */
  lemma NextOfTail(words: nat, n: nat, t: nat)
    requires n <= words < POOL_LIMIT && t + 1 < ADDRESS_WORDS && t + words - n < ADDRESS_WORDS
    requires Remainder(4 * words, 4 * n) >= TLSF_BLOCK_MIN
    ensures (t + OVERHEAD + SizeOf(Remainder(4 * words, 4 * n) + 1) / 4) % ADDRESS_WORDS == t + words - n
  {
    RemainderIs(words, n);
    if words < n + OVERHEAD {
      TailWraps(words, n, t);
    } else {
      TailSize(words - n - OVERHEAD);
    }
  }

  /** blk_split as compiled: it cuts the block as it should exactly if a second header fits behind size bytes. */
  method BlkSplit(h: Allocator, a: nat, size: nat) returns (tail: nat)
    requires h.Rep({a}) && Ok(h.blocks) && a in h.blocks && h.blocks[a].free && End(h.blocks, a) in h.blocks
    requires MIN_WORDS <= size / 4 <= h.blocks[a].words && size % 4 == 0 && h.mem.Length <= ADDRESS_WORDS
    modifies h`blocks, h.mem
    ensures var b, n := old(h.blocks), size / 4;
      if b[a].words >= n + OVERHEAD then
        && h.blocks == Cut(b, a, n) && h.Rep(CutOut(b, a, n)) && Undisturbed(b, old(h.mem[..]), h.mem[..])
        && tail == if Splits(b, a, n) then a + OVERHEAD + n else 0
      else
        h.blocks == b && tail == a + OVERHEAD + n && Lost(h.mem[..], a)
  {
    hide Represents, Undisturbed, Ok, Spells, Shape, SizeOf, WithSize, CutWords, Cut, CutOut, Remainder, Flags, Lost;
    ghost var v, b, n := h.View(), h.blocks, size / 4;
    CutRepresents(v, h.nul, h.lists, b, a, n);
    ReadHeader(v, h.nul, h.lists, b, {a}, a);
    Unfold(v, h.nul, h.lists, b, {a});
    SizesOfFree(b, a);
    SplitWordsIs(v.mem, b, a, n, h.nul);
    RemainderIs(b[a].words, n);
    tail := WriteSplit(h, a, size, b[a].words);
    if b[a].words >= n + OVERHEAD {
      h.blocks := Cut(b, a, n);
    }
  }

  /** The stores of blk_split, on a block of so many words. */
  method WriteSplit(h: Allocator, a: nat, size: nat, ghost words: nat) returns (tail: nat)
    requires size % 4 == 0 && size / 4 <= words < POOL_LIMIT && a + OVERHEAD + words + 1 < h.mem.Length <= ADDRESS_WORDS
    requires SizeOf(h.mem[a + 1]) == 4 * words
    modifies h.mem
    ensures h.mem[..] == SplitWords(old(h.mem[..]), a, words, size / 4)
    ensures tail == if Remainder(4 * words, size) < TLSF_BLOCK_MIN then 0 else a + OVERHEAD + size / 4
  {
    hide SizeOf, WithSize, Remainder;
    var rest := Remainder(SizeOf(h.mem[a + 1]), size);
    if rest < TLSF_BLOCK_MIN {
      return 0;
    }
    tail := a + OVERHEAD + size / 4;
    NextOfTail(words, size / 4, tail);
    h.mem[tail + 1] := rest + 1;
    h.mem[tail] := a;
    var next := (tail + OVERHEAD + SizeOf(h.mem[tail + 1]) / 4) % ADDRESS_WORDS;
    h.mem[next] := PointerIn(next, tail);
    h.mem[a + 1] := WithSize(h.mem[a + 1], size);
  }

  /** The size that the tail of a wrapped split claims has no list: the table of heads is indexed out of range. */
  lemma TailHasNoList(words: nat, n: nat)
    requires n <= words < n + OVERHEAD && words < POOL_LIMIT
    ensures Remainder(4 * words, 4 * n) >= TLSF_BLOCK_MIN && MapInsert(Remainder(4 * words, 4 * n)).0 >= FL_INDEX_COUNT
  {
    RemainderIs(words, n);
    ClassInTable(Remainder(4 * words, 4 * n));
  }

  /** The block at the head of the first list that is searched successfully has no room for a second header behind size bytes. */
  ghost predicate NoRoom(b: Blocks, lists: Lists, size: nat) {
    var n := Request(size);
    && size != 0 && n <= 0x100_0000
    && exists c: nat :: FirstNonEmpty(lists, Number(MapSearch(n)), c) && HeadIsTight(b, lists, c, n)
  }

  ghost predicate HeadIsTight(b: Blocks, lists: Lists, c: nat, n: nat) {
    c < |lists.of| && lists.of[c] != [] && lists.of[c][0] in b && b[lists.of[c][0]].words < n / 4 + OVERHEAD
  }

  /** The search determines the block, and so whether there is room. */
  lemma FoundDecides(b: Blocks, lists: Lists, size: nat, a: nat)
    requires size != 0 && Request(size) <= 0x100_0000 && Found(lists, Number(MapSearch(Request(size))), a)
    requires a != 0 ==> a in b
    requires forall c :: 0 <= c < |lists.of| && lists.of[c] != [] ==> lists.of[c][0] != 0
    ensures NoRoom(b, lists, size) <==> a != 0 && b[a].words < Request(size) / 4 + OVERHEAD
  {
    hide MapSearch, Request, Number;
    var start, n := Number(MapSearch(Request(size))), Request(size);
    if !EmptyFrom(lists, start, |lists.of|) {
      var c: nat :| FirstNonEmpty(lists, start, c) && a == lists.of[c][0];
      assert forall d: nat :: FirstNonEmpty(lists, start, d) ==> d == c;
      assert HeadIsTight(b, lists, c, n) <==> b[a].words < n / 4 + OVERHEAD;
    } else {
      assert forall d: nat :: !FirstNonEmpty(lists, start, d);
    }
  }

  /** Listed blocks do not stand at address 0. */
  lemma ListedAreReal(v: Words, nul: nat, lists: Lists, b: Blocks)
    requires Represents(v, nul, b, lists, {})
    ensures forall c :: 0 <= c < |lists.of| && lists.of[c] != [] ==> lists.of[c][0] != 0
  {
    forall c | 0 <= c < |lists.of| && lists.of[c] != []
      ensures lists.of[c][0] != 0
    {
      assert Member(b, lists.of[c][0], c, {});
      assert Placed(b, lists.of[c][0], |v.mem|, nul);
    }
  }

  /**
   * malloc as compiled, on the block a that the search determines, 0 if there is none. The heap stays in order, with
   * everything that Allocator.Malloc promises, exactly if that block has room for a second header behind the request;
   * if not, no layout of the heap with the block in it is left, and the filing of the tail would go on outside the table.
   */
  method Malloc(h: Allocator, size: nat) returns (ptr: nat, sound: bool, ghost a: nat)
    requires h.Valid() && size < UINT_MOD && h.mem.Length <= ADDRESS_WORDS
    modifies h, h.mem, h.heads, h.slBitmap
    ensures a == 0 <==> size == 0 || Request(size) > 0x100_0000 || !exists x :: Reaches(old(h.blocks), Request(size), x)
    ensures if size == 0 || Request(size) > 0x100_0000 then a == 0 else Found(old(h.lists), Number(MapSearch(Request(size))), a)
    ensures a != 0 ==> GoodFit(old(h.blocks), Request(size), a)
    ensures sound <==> !NoRoom(old(h.blocks), old(h.lists), size)
    ensures sound <==> a == 0 || old(h.blocks)[a].words >= Request(size) / 4 + OVERHEAD
    ensures h.Valid() <==> sound
    ensures !sound ==> Lost(h.mem[..], a)
    ensures sound ==> Allocated(old(h.blocks), h.blocks, size, ptr) && Undisturbed(old(h.blocks), old(h.mem[..]), h.mem[..])
  {
    hide Represents, Undisturbed, Ok, Coalesced, MapSearch, Request, Reaches, GoodFit, Alloc, Found, NoRoom, Lost, Number;
    ghost var v, b, lists := h.View(), h.blocks, h.lists;
    Unchanged(v, h.nul, h.lists, b, {});
    ListedAreReal(v, h.nul, h.lists, b);
    ptr, sound, a := 0, true, 0;
    NothingAsked(b, lists, size);
    if size == 0 {
      return;
    }
    var n := Request(size);
    if n > 0x100_0000 {
      return;
    }
    SearchInTable(n);
    var (fl, sl) := MapSearch(n);
    var x := h.FindFreeBlock(fl, sl);
    NumberIs(n);
    FoundFits(v, h.nul, h.lists, b, n, x);
    if x != 0 {
      FitIs(b, n, x);
      FitHolds(b, n, x);
    }
    FoundDecides(b, lists, size, x);
    if x == 0 || x == h.nul {
      return;
    }
    a := x;
    sound := TakeFrom(h, x, n);
    ptr := x + OVERHEAD;
  }

  lemma NothingAsked(b: Blocks, lists: Lists, size: nat)
    ensures size == 0 || Request(size) > 0x100_0000 ==> !NoRoom(b, lists, size)
  {
  }

  lemma NumberIs(n: nat)
    requires n >= TLSF_BLOCK_MIN
    ensures Number(MapSearch(n)) == 16 * MapSearch(n).0 + MapSearch(n).1
  {
    hide MapSearch;
  }

  lemma FitHolds(b: Blocks, n: nat, a: nat)
    requires n >= TLSF_BLOCK_MIN && GoodFit(b, n, a)
    ensures Reaches(b, n, a)
  {
  }

  /** The part of malloc behind the search. */
  method TakeFrom(h: Allocator, a: nat, n: nat) returns (sound: bool)
    requires h.Valid() && a in h.blocks && h.blocks[a].free && n % 4 == 0 && MIN_WORDS <= n / 4 <= h.blocks[a].words
    requires h.mem.Length <= ADDRESS_WORDS
    modifies h, h.mem, h.heads, h.slBitmap
    ensures sound <==> old(h.blocks)[a].words >= n / 4 + OVERHEAD
    ensures h.Valid() <==> sound
    ensures !sound ==> Lost(h.mem[..], a)
    ensures sound ==> h.blocks == Alloc(old(h.blocks), a, n / 4) && Undisturbed(old(h.blocks), old(h.mem[..]), h.mem[..])
  {
    hide Represents, Undisturbed, Ok, Coalesced, Cut, CutOut, Used, End, Spells, Lost;
    ghost var m0, b := h.mem[..], h.blocks;
    ReadHeader(h.View(), h.nul, h.lists, b, {}, a);
    sound := SizeOf(h.mem[a + 1]) >= n + 4 * OVERHEAD;  // no part of the source: where it does not hold, the model ends with the split
    TailIs(b, a, n / 4);
    h.FlRemove(a, {});
    assert {} + {a} == {a};
    ghost var m1 := h.mem[..];
    var tail := BlkSplit(h, a, n);
    if !sound {
      NotSpelled(h.mem[..], b, a);
      Broken(h.View(), h.nul, h.lists, b);
      return;
    }
    ghost var m2, c := h.mem[..], h.blocks;
    if tail != 0 {
      h.FlInsert(tail, CutOut(b, a, n / 4));
    } else {
      Unchanged(h.View(), h.nul, h.lists, c, {a});
    }
    ghost var m3 := h.mem[..];
    h.MarkUsed(a);
    AllocIs(b, a, n / 4);
    AllocKeepsOk(b, a, n / 4);
    AllocDisturbs(b, a, n / 4, m0, m1, m2, m3, h.mem[..]);
  }

  lemma NotSpelled(mem: seq<nat>, b: Blocks, a: nat)
    requires Lost(mem, a) && Ok(b) && a in b
    ensures !Spells(mem, b)
  {
  }

  lemma Broken(v: Words, nul: nat, lists: Lists, b: Blocks)
    requires !Spells(v.mem, b)
    ensures !Represents(v, nul, b, lists, {})
  {
  }

  /** realloc calls malloc with this size, if it calls it at all; 0 stands for no call. */
  function Forwarded(b: Blocks, ptr: nat, newSize: nat): nat {
    if ptr == 0 then newSize
    else if newSize == 0 || ptr < OVERHEAD || ptr - OVERHEAD !in b || 4 * b[ptr - OVERHEAD].words >= Request(newSize) then 0
    else Request(newSize)
  }

  /** realloc as compiled: all that Allocator.Realloc promises, exactly if the malloc in it finds a block with room. */
  method Realloc(h: Allocator, ptr: nat, newSize: nat) returns (np: nat, sound: bool)
    requires h.Valid() && newSize < UINT_MOD && h.mem.Length <= ADDRESS_WORDS
    requires ptr != 0 ==> ptr >= OVERHEAD && CanFree(h.blocks, ptr - OVERHEAD)
    modifies h, h.mem, h.heads, h.slBitmap
    ensures sound <==> !NoRoom(old(h.blocks), old(h.lists), Forwarded(old(h.blocks), ptr, newSize))
    ensures h.Valid() <==> sound
    ensures sound && ptr == 0 ==> Allocated(old(h.blocks), h.blocks, newSize, np)
    ensures ptr != 0 && newSize == 0 ==> np == 0 && h.blocks == Freed(old(h.blocks), ptr - OVERHEAD)
    ensures sound && ptr != 0 && newSize != 0 ==>
      var n := Request(newSize);
      if 4 * old(h.blocks)[ptr - OVERHEAD].words >= n then np == ptr && h.blocks == old(h.blocks) && h.mem[..] == old(h.mem[..])
      else if n > 0x100_0000 || !exists a :: Reaches(old(h.blocks), n, a) then np == 0 && h.blocks == old(h.blocks)
      else Moved(old(h.blocks), old(h.mem[..]), h.blocks, h.mem[..], ptr, np, n)
    ensures sound ==> forall p: nat, words: nat :: IsLive(old(h.blocks), p, words) && p != ptr ==> Kept(p, words, old(h.mem[..]), h.mem[..])
  {
    hide Represents, Ok, Coalesced, Request, Reaches, GoodFit, Alloc, Freed, Kept, IsLive, Moved, NoRoom, Lost, Found;
    NothingAsked(h.blocks, h.lists, 0);
    ghost var m0 := h.mem[..];
    if ptr == 0 {
      ghost var a, b := 0, h.blocks;
      np, sound, a := Malloc(h, newSize);
      if sound {
        NothingMoved(b, m0, h.mem[..]);
      }
      return;
    }
    ReadHeader(h.View(), h.nul, h.lists, h.blocks, {}, ptr - OVERHEAD);
    if newSize == 0 || SizeOf(h.mem[ptr - OVERHEAD + 1]) >= Request(newSize) {
      np := h.Realloc(ptr, newSize);
      return np, true;
    }
    RequestCovers(newSize);
    np, sound := Move(h, ptr, Request(newSize));
  }

  /** The case of a block that is too small: allocate, copy, free. */
  method Move(h: Allocator, ptr: nat, n: nat) returns (np: nat, sound: bool)
    requires h.Valid() && 0 < n < UINT_MOD && Request(n) == n && ptr >= OVERHEAD && CanFree(h.blocks, ptr - OVERHEAD)
    requires 4 * h.blocks[ptr - OVERHEAD].words < n && h.mem.Length <= ADDRESS_WORDS
    modifies h, h.mem, h.heads, h.slBitmap
    ensures sound <==> !NoRoom(old(h.blocks), old(h.lists), n)
    ensures h.Valid() <==> sound
    ensures sound ==>
      if n > 0x100_0000 || !exists a :: Reaches(old(h.blocks), n, a) then np == 0 && h.blocks == old(h.blocks)
      else Moved(old(h.blocks), old(h.mem[..]), h.blocks, h.mem[..], ptr, np, n)
    ensures sound ==> forall p: nat, words: nat :: IsLive(old(h.blocks), p, words) && p != ptr ==> Kept(p, words, old(h.mem[..]), h.mem[..])
  {
    hide Represents, Ok, Coalesced, Request, Reaches, GoodFit, Alloc, Freed, Kept, IsLive, SameContents, MovedTo, Undisturbed, NoRoom, Lost, Found, End, Number, MapSearch;
    ghost var v, b := h.View(), h.blocks;
    ghost var a: nat, found := ptr - OVERHEAD, 0;
    np, sound, found := Malloc(h, n);
    if !sound {
      return;
    }
    if np == 0 {
      NothingMoved(b, v.mem, h.mem[..]);
      return;
    }
    ghost var m1, b1, f: nat := h.mem[..], h.blocks, np - OVERHEAD;
    FitIs(b, n, f);
    AllocIsMove(b, f, n / 4, ptr);
    StillLive(b, f, n / 4);
    ReadHeader(h.View(), h.nul, h.lists, h.blocks, {}, a);
    h.CopyPayload(np, ptr, SizeOf(h.mem[ptr - OVERHEAD + 1]) / 4);
    ghost var m2 := h.mem[..];
    h.Free(ptr);
    LiveIs(b, ptr);
    MoveKeeps(b, b1, h.blocks, v.mem, m1, m2, h.mem[..], ptr, np, b1[f].words);
  }
}
