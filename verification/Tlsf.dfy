// The two-level segregated fit allocator itself: headers, links, list heads and bitmaps rewritten in
// place. Each method is proved against the blocks of TlsfBlocks.
module Tlsf {
  import opened TlsfClasses
  import opened TlsfBlocks
  import opened TlsfLists
  import opened TlsfSteps

  /** nullptr iff nothing is asked for, the request is above 16 MB, or no free block reaches its class. */
  ghost predicate Allocated(b: Blocks, b': Blocks, size: nat, ptr: nat)
    requires Ok(b)
  {
    var n := Request(size);
    if size == 0 || n > 0x100_0000 || !exists a :: Reaches(b, n, a) then ptr == 0 && b' == b
    else exists a: nat :: GoodFit(b, n, a) && b' == Alloc(b, a, n / 4) && ptr == a + OVERHEAD
  }

  class Allocator {
    const mem: array<nat>             // all memory, by 32-bit word
    const nul: nat                    // where null_blk stands
    const heads: array<nat>           // free_lists, row by row
    var flBitmap: set<nat>
    const slBitmap: array<set<nat>>
    ghost var blocks: Blocks
    ghost var lists: Lists

    ghost function View(): Words
      reads this, mem, heads, slBitmap
    {
      Words(mem[..], heads[..], flBitmap, slBitmap[..])
    }

    /** Everything in order but for the free blocks of out, which are in no list. */
    ghost predicate Rep(out: set<nat>)
      reads this, mem, heads, slBitmap
    {
      mem != heads && Represents(View(), nul, blocks, lists, out)
    }

    ghost predicate Valid()
      reads this, mem, heads, slBitmap
    {
      Rep({}) && Ok(blocks) && Coalesced(blocks)
    }

    /** init: an empty control structure, then the first pool. */
    constructor (memory: array<nat>, nullBlk: nat, pool: nat, bytes: nat)
      requires 0 < nullBlk && nullBlk + 4 <= memory.Length && CanAdd(map[], memory.Length, nullBlk, pool, bytes)
      modifies memory
      ensures Valid() && mem == memory && nul == nullBlk && fresh(heads) && fresh(slBitmap)
      ensures blocks == if pool == 0 || bytes < 40 then map[] else WithPool(map[], Pool(pool, pool + bytes / 4))
    {
      mem, nul := memory, nullBlk;
      heads := new nat[CLASS_COUNT];
      slBitmap := new set<nat>[FL_INDEX_COUNT](_ => {});
      flBitmap, blocks, lists := {}, map[], Lists(seq(CLASS_COUNT, _ => []));
      new;
      mem[nul + 3] := nul;
      mem[nul + 2] := nul;
      mem[nul + 1] := 0;
      mem[nul] := 0;
      for c := 0 to CLASS_COUNT
        invariant forall d :: 0 <= d < c ==> heads[d] == nul
        modifies heads
      {
        heads[c] := nul;
      }
      EmptyRepresents(View(), nul, lists);
      AddPool(pool, bytes);
    }

    /** Registers the region of so many bytes at p as a pool of one free block between two sentinels. */
    method AddPool(p: nat, bytes: nat)
      requires Valid() && CanAdd(blocks, mem.Length, nul, p, bytes)
      modifies this, mem, heads, slBitmap
      ensures Valid() && blocks == if p == 0 || bytes < 40 then old(blocks) else WithPool(old(blocks), Pool(p, p + bytes / 4))
      ensures Undisturbed(old(blocks), old(mem[..]), mem[..])
    {
      hide Represents, Undisturbed, Ok, Coalesced, Fresh, WithPool;
      ghost var v, b := View(), blocks;
      Unchanged(v, nul, lists, b, {});
      if p == 0 || bytes < 40 {
        return;
      }
      ghost var pool := Pool(p, p + bytes / 4);
      PoolRepresents(v, nul, lists, b, pool);
      WithPoolKeepsOk(b, pool);
      var main := LayPool(p, bytes, pool);
      blocks := WithPool(b, pool);
      ghost var m1 := mem[..];
      MainIs(b, pool);
      FlInsert(main, {main});
      assert {main} - {main} == {};
      UndisturbedTwice(blocks, blocks, v.mem, m1, mem[..]);
      Narrowed(b, blocks, v.mem, mem[..]);
    }

    /** The three headers of a new pool. */
    method LayPool(p: nat, bytes: nat, ghost pool: Pool) returns (main: nat)
      requires pool == Pool(p, p + bytes / 4) && 40 <= bytes && bytes % 4 < 2 && p + bytes / 4 <= mem.Length
      modifies mem
      ensures main == p + OVERHEAD && mem[..] == PoolWords(old(mem[..]), pool)
    {
      hide SizeOf;
      PoolNumbers(bytes);
      mem[p] := 0;
      mem[p + 1] := 0;
      var mainSize := bytes - 24;
      main := p + OVERHEAD + SizeOf(mem[p + 1]) / 4;
      mem[main] := p;
      mem[main + 1] := mainSize / 2 * 2 + 1;
      var end := main + OVERHEAD + SizeOf(mem[main + 1]) / 4;
      mem[end] := main;
      mem[end + 1] := 2;
    }

    // ---- Free-list operations

    method FlInsert(x: nat, ghost out: set<nat>)
      requires Rep(out) && x in blocks && blocks[x].free && x in out && MIN_WORDS <= blocks[x].words < POOL_LIMIT
      modifies this`flBitmap, this`lists, mem, heads, slBitmap
      ensures Rep(out - {x}) && lists == Pushed(old(lists), ListOf(blocks[x].words), x)
      ensures Undisturbed(blocks, old(mem[..]), mem[..])
    {
      hide Represents, Undisturbed, MapInsert, ClassOf;
      ghost var v, c := View(), ListOf(blocks[x].words);
      InsertedRepresents(v, nul, blocks, lists, out, x);
      ReadHeader(v, nul, lists, blocks, out, x);
      ListIs(blocks[x].words);
      var (fl, sl) := MapInsert(SizeOf(mem[x + 1]));
      var head := heads[16 * fl + sl];
      mem[x + 2] := head;
      mem[x + 3] := nul;
      mem[head + 3] := x;
      heads[16 * fl + sl] := x;
      flBitmap := flBitmap + {fl};
      slBitmap[fl] := slBitmap[fl] + {sl};
      lists := Pushed(lists, c, x);
      assert View() == Inserted(v, nul, x, c);
    }

    method FlRemove(x: nat, ghost out: set<nat>)
      requires Rep(out) && x in blocks && blocks[x].free && x !in out
      modifies this`flBitmap, this`lists, mem, heads, slBitmap
      ensures Rep(out + {x}) && Undisturbed(blocks, old(mem[..]), mem[..])
    {
      hide Represents, Undisturbed, MapInsert, ClassOf, ListOf, Flags, SizeOf;
      ghost var v := View();
      ghost var i := FindListed(v, nul, lists, blocks, out, x);
      ghost var c := ListOf(blocks[x].words);
      RemovedRepresents(v, nul, blocks, lists, out, c, i);
      OwnLinksStay(v, nul, lists, blocks, out, c, i);
      ReadHeader(v, nul, lists, blocks, out, x);
      ListIs(blocks[x].words);
      var (fl, sl) := MapInsert(SizeOf(mem[x + 1]));
      mem[mem[x + 3] + 2] := mem[x + 2];
      mem[mem[x + 2] + 3] := mem[x + 3];
      if heads[16 * fl + sl] == x {
        heads[16 * fl + sl] := mem[x + 2];
        if mem[x + 2] == nul {
          slBitmap[fl] := slBitmap[fl] - {sl};
          if slBitmap[fl] == {} {
            flBitmap := flBitmap - {fl};
          }
        }
      }
      lists := Dropped(lists, c, i);
      assert View() == Removed(v, nul, x, c);
    }

    /** The head of the first list at or above the class, or 0 for nullptr. */
    method FindFreeBlock(fl: nat, sl: nat) returns (b: nat)
      requires Rep({}) && fl < FL_INDEX_COUNT && sl < SL_CLASS_COUNT
      ensures Found(lists, 16 * fl + sl, b)
    {
      hide Shape, Spells, Filed, Chained, Bsf;
      ghost var v := View();
      RowSearch(v, lists, fl, sl);
      TableSearch(v, lists, fl + 1);
      var f, slMap := fl, From(slBitmap[fl], sl);
      if slMap == {} {
        var flMap := From(flBitmap, fl + 1);
        if flMap == {} {
          return 0;
        }
        f := Bsf(flMap);
        slMap := slBitmap[f];
        RowSearch(v, lists, f, 0);
        assert From(slMap, 0) == slMap;
      }
      var s := Bsf(slMap);
      assert FirstNonEmpty(lists, 16 * fl + sl, 16 * f + s);
      b := heads[16 * f + s];
    }

    // ---- Block helpers

    /** Sets PREV_FREE of the block behind a. */
    method SetNextPrevFree(a: nat, isFree: bool)
      requires a + 1 < mem.Length && a + OVERHEAD + mem[a + 1] / 4 + 1 < mem.Length
      modifies mem
      ensures var e := a + OVERHEAD + old(mem[a + 1]) / 4;
        mem[..] == old(mem[..])[e + 1 := WithPrevFree(old(mem[e + 1]), isFree)]
    {
      var next := a + OVERHEAD + SizeOf(mem[a + 1]) / 4;
      mem[next + 1] := WithPrevFree(mem[next + 1], isFree);
    }

    /** Cuts block a to size bytes if the rest makes a block; returns the rest, or 0 for nullptr. */
    method BlkSplit(a: nat, size: nat) returns (tail: nat)
      requires Rep({a}) && Ok(blocks) && a in blocks && blocks[a].free && End(blocks, a) in blocks
      requires MIN_WORDS <= size / 4 <= blocks[a].words && size % 4 == 0
      modifies this`blocks, mem
      ensures blocks == Cut(old(blocks), a, size / 4) && Rep(CutOut(old(blocks), a, size / 4))
      ensures tail == if Splits(old(blocks), a, size / 4) then a + OVERHEAD + size / 4 else 0
      ensures Undisturbed(old(blocks), old(mem[..]), mem[..])
    {
      hide Represents, Undisturbed, Ok;
      ghost var v, n := View(), size / 4;
      CutRepresents(v, nul, lists, blocks, a, n);
      ReadHeader(v, nul, lists, blocks, {a}, a);
      FlagUpdates(blocks[a], n, false);
      tail := 0;
      if SizeOf(mem[a + 1]) >= size + 4 * OVERHEAD + TLSF_BLOCK_MIN {
        var rest := SizeOf(mem[a + 1]) - size - 4 * OVERHEAD;
        tail := a + OVERHEAD + size / 4;
        mem[tail + 1] := rest + 1;
        mem[tail] := a;
        mem[tail + OVERHEAD + SizeOf(mem[tail + 1]) / 4] := tail;
        mem[a + 1] := WithSize(mem[a + 1], size);
      }
      assert mem[..] == CutWords(v.mem, blocks, a, n);
      blocks := Cut(blocks, a, n);
    }

    /** Coalesces block a with the next one if that is free. */
    method MergeNext(a: nat)
      requires Rep({a}) && Ok(blocks) && a in blocks && blocks[a].free
      modifies this`flBitmap, this`lists, this`blocks, mem, heads, slBitmap
      ensures Rep({a}) && blocks == MergedNext(old(blocks), a)
      ensures Undisturbed(blocks, old(mem[..]), mem[..])
    {
      hide Represents, Undisturbed, Shape, Spells;
      ghost var v := View();
      assert Local(blocks, a);
      ReadHeader(v, nul, lists, blocks, {a}, a);
      ReadHeader(v, nul, lists, blocks, {a}, End(blocks, a));
      Unchanged(v, nul, lists, blocks, {a});
      assert Local(blocks, End(blocks, a));
      var next := a + OVERHEAD + SizeOf(mem[a + 1]) / 4;
      if mem[next + 1] % 2 == 1 && SizeOf(mem[next + 1]) != 0 {
        FlRemove(next, {a});
        assert {a} + {next} == {a, next};
        JoinHere(a, v.mem);
      }
    }

    /** Coalesces block a with the previous one if PREV_FREE is set; returns the block it is part of. */
    method MergePrev(a: nat) returns (r: nat)
      requires Rep({a}) && Ok(blocks) && a in blocks && blocks[a].free
      modifies this`flBitmap, this`lists, this`blocks, mem, heads, slBitmap
      ensures r == Start(old(blocks), a) && Rep({r}) && blocks == MergedPrev(old(blocks), a)
      ensures Undisturbed(blocks, old(mem[..]), mem[..])
    {
      hide Represents, Undisturbed, Shape, Spells;
      ghost var v := View();
      ReadHeader(v, nul, lists, blocks, {a}, a);
      Unchanged(v, nul, lists, blocks, {a});
      r := a;
      if mem[a + 1] / 2 % 2 == 1 {
        PrevIsFree(blocks, a);
        r := mem[a];
        FlRemove(r, {a});
        assert {a} + {r} == {r, a};
        JoinHere(r, v.mem);
      }
    }

    /** Makes one block of block a and the next, both free and in no list. */
    method JoinHere(a: nat, ghost before: seq<nat>)
      requires Ok(blocks) && a in blocks && Pair(blocks, a) && Rep({a, End(blocks, a)})
      requires Undisturbed(blocks, before, mem[..])
      modifies this`blocks, mem
      ensures Joinable(old(blocks), a) && Rep({a}) && blocks == Join(old(blocks), a)
      ensures Undisturbed(blocks, before, mem[..])
    {
      hide Represents, Undisturbed, Shape, Spells;
      ghost var v, b := View(), blocks;
      ghost var out := {a, End(b, a)};
      JoinRepresents(v, nul, lists, b, a, out);
      ReadHeader(v, nul, lists, b, out, a);
      ReadHeader(v, nul, lists, b, out, End(b, a));
      FlagUpdates(b[a], b[a].words + OVERHEAD + b[End(b, a)].words, false);
      var next := a + OVERHEAD + SizeOf(mem[a + 1]) / 4;
      mem[a + 1] := WithSize(mem[a + 1], SizeOf(mem[a + 1]) + 4 * OVERHEAD + SizeOf(mem[next + 1]));
      mem[a + OVERHEAD + SizeOf(mem[a + 1]) / 4] := a;
      assert mem[..] == JoinWords(v.mem, b, a);
      blocks := Join(b, a);
      LiveAfterJoin(b, a);
      UndisturbedTwice(b, blocks, before, v.mem, mem[..]);
    }

    // ---- The public interface

    method Malloc(size: nat) returns (ptr: nat)
      requires Valid() && size < UINT_MOD
      modifies this, mem, heads, slBitmap
      ensures Valid() && Allocated(old(blocks), blocks, size, ptr)
      ensures Undisturbed(old(blocks), old(mem[..]), mem[..])
    {
      hide Represents, Undisturbed, Ok, Coalesced, MapSearch, Request, Reaches, GoodFit, Alloc;
      ghost var v, b := View(), blocks;
      Unchanged(v, nul, lists, b, {});
      if size == 0 {
        return 0;
      }
      var n := Request(size);
      if n > 0x100_0000 {
        return 0;
      }
      SearchInTable(n);
      var (fl, sl) := MapSearch(n);
      var a: nat := 0;
      if fl < FL_INDEX_COUNT {
        a := FindFreeBlock(fl, sl);
      }
      FoundFits(v, nul, lists, b, n, a);
      if a == 0 || a == nul {
        return 0;
      }
      FitIs(b, n, a);
      TailIs(b, a, n / 4);
      TakeFrom(a, n);
      return a + OVERHEAD;
    }

    /** The part of malloc behind the search: n bytes are taken from the free block a. */
    method TakeFrom(a: nat, n: nat)
      requires Valid() && a in blocks && blocks[a].free && n % 4 == 0 && MIN_WORDS <= n / 4 <= blocks[a].words
      modifies this, mem, heads, slBitmap
      ensures Valid() && blocks == Alloc(old(blocks), a, n / 4) && Undisturbed(old(blocks), old(mem[..]), mem[..])
    {
      hide Represents, Undisturbed, Ok, Coalesced, Cut, CutOut, Splits, Used, End;
      ghost var m0, b := mem[..], blocks;
      TailIs(b, a, n / 4);
      FlRemove(a, {});
      assert {} + {a} == {a};
      ghost var m1 := mem[..];
      var tail := BlkSplit(a, n);
      ghost var m2, c := mem[..], blocks;
      if tail != 0 {
        FlInsert(tail, CutOut(b, a, n / 4));
      } else {
        Unchanged(View(), nul, lists, c, {a});
      }
      ghost var m3 := mem[..];
      MarkUsed(a);
      AllocIs(b, a, n / 4);
      AllocKeepsOk(b, a, n / 4);
      AllocDisturbs(b, a, n / 4, m0, m1, m2, m3, mem[..]);
    }

    /** Clears F_FREE of block a and PREV_FREE of the block behind it. */
    method MarkUsed(a: nat)
      requires Rep({a}) && a in blocks && blocks[a].free && End(blocks, a) in blocks && a != End(blocks, a)
      modifies this`blocks, mem
      ensures Rep({}) && blocks == Used(old(blocks), a) && Undisturbed(blocks, old(mem[..]), mem[..])
    {
      hide Represents, Undisturbed;
      ghost var v, b, e := View(), blocks, End(blocks, a);
      UsedRepresents(v, nul, lists, b, a);
      ReadHeader(v, nul, lists, b, {a}, a);
      ReadHeader(v, nul, lists, b, {a}, e);
      FlagUpdates(b[a], 0, false);
      FlagUpdates(b[a].(free := false), 0, false);
      FlagUpdates(b[e], 0, false);
      FlagBits(b[a].(free := false));
      hide Flags, WithFree, WithPrevFree;
      mem[a + 1] := WithFree(mem[a + 1], false);
      SetNextPrevFree(a, false);
      assert mem[..] == UsedWords(v.mem, b, a);
      blocks := Used(b, a);
    }

    /** Sets F_FREE of block a and PREV_FREE of the block behind it. */
    method MarkFree(a: nat)
      requires Rep({}) && Ok(blocks) && CanFree(blocks, a) && End(blocks, a) in blocks && a != End(blocks, a)
      modifies this`blocks, mem
      ensures Rep({a}) && blocks == Marked(old(blocks), a) && Undisturbed(blocks, old(mem[..]), mem[..])
    {
      hide Represents, Undisturbed, Ok;
      ghost var v, b, e := View(), blocks, End(blocks, a);
      MarkedRepresents(v, nul, lists, b, a);
      ReadHeader(v, nul, lists, b, {}, a);
      ReadHeader(v, nul, lists, b, {}, e);
      FlagUpdates(b[a], 0, true);
      FlagUpdates(b[e], 0, true);
      FlagBits(b[a].(free := true));
      mem[a + 1] := WithFree(mem[a + 1], true);
      SetNextPrevFree(a, true);
      assert mem[..] == MarkedWords(v.mem, b, a);
      blocks := Marked(b, a);
    }

    /** Gives a live payload back and coalesces it with its neighbours. */
    method Free(ptr: nat)
      requires Valid() && (ptr != 0 ==> ptr >= OVERHEAD && CanFree(blocks, ptr - OVERHEAD))
      modifies this, mem, heads, slBitmap
      ensures Valid() && blocks == if ptr == 0 then old(blocks) else Freed(old(blocks), ptr - OVERHEAD)
      ensures Undisturbed(blocks, old(mem[..]), mem[..])
    {
      hide Represents, Undisturbed, Ok, Coalesced, Marked, MergedNext, MergedPrev, Start, End;
      ghost var v, b := View(), blocks;
      Unchanged(v, nul, lists, b, {});
      if ptr == 0 {
        return;
      }
      var a: nat := ptr - OVERHEAD;
      MarkedKeepsOk(b, a);
      MarkFree(a);
      ghost var m1 := mem[..];
      MergedNextFacts(blocks, a);
      MergeNext(a);
      ghost var m2 := mem[..];
      MergedPrevFacts(blocks, a);
      var r := MergePrev(a);
      ghost var m3 := mem[..];
      FreedKeepsOk(b, a);
      SizesOfFree(blocks, r);
      FlInsert(r, {r});
      assert {r} - {r} == {};
      FreedDisturbs(b, a, v.mem, m1, m2, m3, mem[..]);
    }

    /** memcpy of words into the live payload dst, from the live payload src. */
    method CopyPayload(dst: nat, src: nat, words: nat)
      requires Valid() && dst >= OVERHEAD && src >= OVERHEAD && dst != src
      requires CanFree(blocks, dst - OVERHEAD) && CanFree(blocks, src - OVERHEAD)
      requires words <= blocks[dst - OVERHEAD].words && words == blocks[src - OVERHEAD].words
      modifies mem
      ensures Valid() && SameContents(old(mem[..]), src, mem[..], dst, words)
      ensures forall p: nat, n: nat :: IsLive(blocks, p, n) && p != dst ==> Kept(p, n, old(mem[..]), mem[..])
    {
      hide Represents, Coalesced, Ok, Flags, Disjoint, IsLive, Kept;
      ghost var v, d := View(), dst - OVERHEAD;
      ReadHeader(v, nul, lists, blocks, {}, d);
      ReadHeader(v, nul, lists, blocks, {}, src - OVERHEAD);
      CopyApart(blocks, dst, src, words);
      for w := 0 to words
        invariant forall x :: dst <= x < dst + w ==> mem[x] == v.mem[x - dst + src]
        invariant forall x :: 0 <= x < mem.Length && !(dst <= x < dst + w) ==> mem[x] == v.mem[x]
        invariant heads[..] == v.heads && slBitmap[..] == v.sl
      {
        mem[dst + w] := mem[src + w];
      }
      PayloadMayChange(v, mem[..], nul, blocks, lists, {}, d);
    }

    /** Resizes a live payload; its contents survive a move, and a failure leaves the heap as it was. */
    method Realloc(ptr: nat, newSize: nat) returns (np: nat)
      requires Valid() && newSize < UINT_MOD && (ptr != 0 ==> ptr >= OVERHEAD && CanFree(blocks, ptr - OVERHEAD))
      modifies this, mem, heads, slBitmap
      ensures Valid()
      ensures ptr == 0 ==> Allocated(old(blocks), blocks, newSize, np)
      ensures ptr != 0 && newSize == 0 ==> np == 0 && blocks == Freed(old(blocks), ptr - OVERHEAD)
      ensures ptr != 0 && newSize != 0 ==>
        var n := Request(newSize);
        if 4 * old(blocks)[ptr - OVERHEAD].words >= n then np == ptr && blocks == old(blocks) && mem[..] == old(mem[..])
        else if n > 0x100_0000 || !exists a :: Reaches(old(blocks), n, a) then np == 0 && blocks == old(blocks)
        else Moved(old(blocks), old(mem[..]), blocks, mem[..], ptr, np, n)
      ensures forall p: nat, words: nat :: IsLive(old(blocks), p, words) && p != ptr ==> Kept(p, words, old(mem[..]), mem[..])
    {
      hide Represents, Ok, Coalesced, Request, Reaches, GoodFit, Alloc, Freed, Kept, IsLive, Moved;
      if ptr == 0 {
        np := Malloc(newSize);
        return;
      }
      ghost var v, b, a := View(), blocks, ptr - OVERHEAD;
      if newSize == 0 {
        Free(ptr);
        FreedKeepsOthers(b, a);
        return 0;
      }
      ReadHeader(v, nul, lists, b, {}, a);
      var n := Request(newSize);
      RequestCovers(newSize);
      if SizeOf(mem[ptr - OVERHEAD + 1]) >= n {
        Unchanged(v, nul, lists, b, {});
        return ptr;
      }
      np := Move(ptr, n);
    }

    /** The case of a block that is too small: allocate, copy, free. */
    method Move(ptr: nat, n: nat) returns (np: nat)
      requires Valid() && 0 < n < UINT_MOD && Request(n) == n && ptr >= OVERHEAD && CanFree(blocks, ptr - OVERHEAD)
      requires 4 * blocks[ptr - OVERHEAD].words < n
      modifies this, mem, heads, slBitmap
      ensures Valid()
      ensures if n > 0x100_0000 || !exists a :: Reaches(old(blocks), n, a) then np == 0 && blocks == old(blocks)
        else Moved(old(blocks), old(mem[..]), blocks, mem[..], ptr, np, n)
      ensures forall p: nat, words: nat :: IsLive(old(blocks), p, words) && p != ptr ==> Kept(p, words, old(mem[..]), mem[..])
    {
      hide Represents, Ok, Coalesced, Request, Reaches, GoodFit, Alloc, Freed, Kept, IsLive, SameContents, MovedTo, Undisturbed;
      ghost var v, b := View(), blocks;
      ghost var a: nat := ptr - OVERHEAD;
      np := Malloc(n);
      if np == 0 {
        NothingMoved(b, v.mem, mem[..]);
        return;
      }
      ghost var m1, b1, f: nat := mem[..], blocks, np - OVERHEAD;
      FitIs(b, n, f);
      AllocIsMove(b, f, n / 4, ptr);
      StillLive(b, f, n / 4);
      ReadHeader(View(), nul, lists, blocks, {}, a);
      CopyPayload(np, ptr, SizeOf(mem[ptr - OVERHEAD + 1]) / 4);
      ghost var m2 := mem[..];
      Free(ptr);
      LiveIs(b, ptr);
      MoveKeeps(b, b1, blocks, v.mem, m1, m2, mem[..], ptr, np, b1[f].words);
    }
  }
}
