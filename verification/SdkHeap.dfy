// The SDK heap itself: a 64 KB pool of words with the block headers inside it, walked and
// rewritten in place. Each method is proved against the list of blocks in SdkBlocks.
module SdkHeap {
  import opened SdkBlocks

  const POOL_WORDS: nat := 16384
  const UINT_MOD: nat := 0x1_0000_0000

  /** size rounded up to a multiple of 4 in 32-bit arithmetic. */
  function RoundUp(size: nat): (r: nat)
    ensures r % 4 == 0 && r < UINT_MOD
  {
    (size + 3) % UINT_MOD / 4 * 4
  }

  /** The rounding loses the request exactly when the sum wraps around. */
  lemma RoundUpCovers(size: nat)
    requires size < UINT_MOD
    ensures size <= RoundUp(size) <==> size <= UINT_MOD - 4
    ensures size <= UINT_MOD - 4 ==> RoundUp(size) < size + 4
  {
  }

  /**
   * A size whose rounding wraps around asks for 0 bytes, the block found for it may be empty, and the old payload
   * of a realloc does not fit into that.
   */
  lemma ReallocWraps(request: nat)
    requires UINT_MOD - 4 < request < UINT_MOD
    ensures RoundUp(request) == 0
    ensures var b := [Block(1, true), Block(POOL_WORDS - 2 * HDR - 1, false)];
      && Total(b) == POOL_WORDS && NoAdjacentFree(b) && 4 * b[0].words < request
      && RoundUp(request) == 0 && Overruns(b, 0, request)
  {
    var b := [Block(1, true), Block(POOL_WORDS - 2 * HDR - 1, false)];
    assert (request + 3) % UINT_MOD == request + 3 - UINT_MOD;
    assert Pos(b, 1) == HDR + 1 && Pos(b, 2) == POOL_WORDS;
    assert FirstFit(b, 0, 1);
  }

  ghost predicate HeaderAt(mem: seq<nat>, b: seq<Block>, i: nat)
    requires i < |b|
  {
    && Pos(b, i) + HDR + b[i].words <= |mem|
    && mem[Pos(b, i)] == 4 * b[i].words
    && mem[Pos(b, i) + 1] == if b[i].used then 1 else 0
  }

  /** The headers in mem spell out b, which covers mem exactly. */
  ghost predicate Tiles(mem: seq<nat>, b: seq<Block>) {
    Total(b) == |mem| && forall i :: 0 <= i < |b| ==> HeaderAt(mem, b, i)
  }

  /** The lowest free block that holds n words. */
  ghost predicate FirstFit(b: seq<Block>, n: nat, i: nat) {
    i < |b| && Fits(b[i], n) && forall j :: 0 <= j < i ==> !Fits(b[j], n)
  }

  /**
   * Moving the payload of block i for this size writes past the block that malloc finds: the size wraps around, and
   * what the first free block keeps of itself, nothing once it is split, is smaller than the payload.
   */
  ghost predicate Overruns(b: seq<Block>, i: nat, request: nat)
    requires i < |b|
  {
    && UINT_MOD - 4 < request
    && exists k: nat :: FirstFit(b, 0, k) && (if b[k].words >= HDR + 1 then 0 else b[k].words) < b[i].words
  }

  lemma FirstFitUnique(b: seq<Block>, n: nat, i: nat, j: nat)
    requires FirstFit(b, n, i) && FirstFit(b, n, j)
    ensures i == j
  {
    assert Fits(b[i], n) && Fits(b[j], n);
  }

  /** What malloc leaves of the block it takes, for sizes that wrap around and for others. */
  lemma TakenCovers(b: seq<Block>, i: nat, request: nat, k: nat)
    requires i < |b| && request < UINT_MOD && 4 * b[i].words < request && FirstFit(b, RoundUp(request) / 4, k)
    ensures k < |Taken(b, k, RoundUp(request) / 4)|
    ensures var r := Taken(b, k, RoundUp(request) / 4);
      && (r[k].words < b[i].words <==> Overruns(b, i, request))
      && (request <= UINT_MOD - 4 ==> 4 * r[k].words >= request)
  {
    if request <= UINT_MOD - 4 {
      RoundUpCovers(request);
    } else {
      assert (request + 3) % UINT_MOD == request + 3 - UINT_MOD;
      forall j: nat | FirstFit(b, 0, j)
        ensures j == k
      {
        FirstFitUnique(b, 0, j, k);
      }
    }
  }

  /** No live payload of b differs between mem and mem'. */
  ghost predicate Undisturbed(b: seq<Block>, mem: seq<nat>, mem': seq<nat>) {
    |mem| == |mem'| && forall i :: 0 <= i < |b| && b[i].used ==> SamePayload(b, i, mem, mem')
  }

  ghost predicate SamePayload(b: seq<Block>, i: nat, mem: seq<nat>, mem': seq<nat>)
    requires i < |b|
  {
    && Pos(b, i) + HDR + b[i].words <= |mem| && |mem'| == |mem|
    && forall w :: Pos(b, i) + HDR <= w < Pos(b, i) + HDR + b[i].words ==> mem'[w] == mem[w]
  }

  /** The header words of block i do not belong to another block. */
  lemma OutsideBlock(b: seq<Block>, i: nat, j: nat)
    requires i < |b| && j < |b| && i != j
    ensures Pos(b, j) + HDR + b[j].words <= Pos(b, i) || Pos(b, i) + HDR + b[i].words <= Pos(b, j)
  {
    if i < j {
      PosMonotone(b, i, j);
    } else {
      PosMonotone(b, j, i);
    }
  }

  lemma BlockFits(b: seq<Block>, i: nat)
    requires i < |b|
    ensures Pos(b, i + 1) == Pos(b, i) + HDR + b[i].words <= Total(b)
  {
    if i + 1 < |b| {
      PosMonotone(b, i + 1, |b|);
    }
  }

  /** The pool after the headers have been rewritten for an allocation in block i. */
  function TakenWords(mem: seq<nat>, b: seq<Block>, i: nat, n: nat): (r: seq<nat>)
    requires i < |b| && Fits(b[i], n) && Total(b) == |mem|
    ensures |r| == |mem|
  {
    BlockFits(b, i);
    var p := Pos(b, i);
    if b[i].words >= n + HDR + 1 then
      mem[p + HDR + n := 4 * (b[i].words - n - HDR)][p + HDR + n + 1 := 0][p := 4 * n][p + 1 := 1]
    else mem[p + 1 := 1]
  }

  lemma TakenTiles(mem: seq<nat>, b: seq<Block>, i: nat, n: nat)
    requires i < |b| && Fits(b[i], n) && Tiles(mem, b)
    ensures Tiles(TakenWords(mem, b, i, n), Taken(b, i, n)) && Undisturbed(b, mem, TakenWords(mem, b, i, n))
  {
    hide Pos;
    var r, m := Taken(b, i, n), TakenWords(mem, b, i, n);
    var d := |r| - |b|;
    BlockFits(b, i);
    TakenPositions(b, i, n);
    assert HeaderAt(mem, b, i);
    forall j | 0 <= j < |r|
      ensures HeaderAt(m, r, j)
    {
      if j < i || j > i + d {
        var o := if j < i then j else j - d;
        assert r[j] == b[o] && HeaderAt(mem, b, o);
        OutsideBlock(b, i, o);
      }
    }
    forall j | 0 <= j < |b| && b[j].used
      ensures SamePayload(b, j, mem, m)
    {
      OutsideBlock(b, i, j);
      BlockFits(b, j);
    }
  }

  lemma ReleaseTiles(mem: seq<nat>, b: seq<Block>, i: nat)
    requires i < |b| && Tiles(mem, b)
    ensures Pos(b, i) + 1 < |mem|
    ensures Tiles(mem[Pos(b, i) + 1 := 0], b[i := Block(b[i].words, false)])
    ensures forall j {:trigger b[j]} :: 0 <= j < |b| ==> SamePayload(b, j, mem, mem[Pos(b, i) + 1 := 0])
  {
    hide Pos;
    var c := b[i := Block(b[i].words, false)];
    BlockFits(b, i);
    var m := mem[Pos(b, i) + 1 := 0];
    SamePositions(b, c);
    forall j | 0 <= j < |b|
      ensures HeaderAt(m, c, j) && SamePayload(b, j, mem, m)
    {
      assert HeaderAt(mem, b, j);
      if j != i {
        OutsideBlock(b, i, j);
      }
    }
  }

  /** One step of coalescing on the list and in the pool. */
  function Joined(b: seq<Block>, k: nat): seq<Block>
    requires k + 1 < |b|
  {
    b[..k] + [Join(b[k], b[k + 1])] + b[k + 2..]
  }

  lemma JoinedPositions(b: seq<Block>, k: nat)
    requires k + 1 < |b|
    ensures |Joined(b, k)| == |b| - 1
    ensures forall j :: 0 <= j <= k ==> Pos(Joined(b, k), j) == Pos(b, j)
    ensures forall j :: k < j < |b| ==> Pos(Joined(b, k), j) == Pos(b, j + 1)
  {
    var c := Joined(b, k);
    forall j | 0 <= j <= k
      ensures Pos(c, j) == Pos(b, j)
    {
      assert c[..j] == b[..j];
      PosPrefix(c, b, j);
    }
    assert Pos(b, k + 2) == Pos(b, k + 1) + HDR + b[k + 1].words;
    forall j | k < j < |b|
      ensures Pos(c, j) == Pos(b, j + 1)
    {
      assert c[k + 1..k + 1 + (j - k - 1)] == b[k + 2..k + 2 + (j - k - 1)];
      PosSuffix(c, k + 1, b, k + 2, j - k - 1);
    }
  }

  lemma JoinTiles(mem: seq<nat>, b: seq<Block>, k: nat)
    requires k + 1 < |b| && Tiles(mem, b) && !b[k].used && !b[k + 1].used
    ensures Pos(b, k) < |mem|
    ensures var m := mem[Pos(b, k) := 4 * (b[k].words + HDR + b[k + 1].words)];
      Tiles(m, Joined(b, k)) && Undisturbed(b, mem, m)
  {
    hide Pos;
    var c := Joined(b, k);
    BlockFits(b, k);
    BlockFits(b, k + 1);
    var m := mem[Pos(b, k) := 4 * (b[k].words + HDR + b[k + 1].words)];
    JoinedPositions(b, k);
    assert HeaderAt(mem, b, k);
    forall j | 0 <= j < |c|
      ensures HeaderAt(m, c, j)
    {
      if j != k {
        var o := if j < k then j else j + 1;
        assert c[j] == b[o] && HeaderAt(mem, b, o);
        OutsideBlock(b, k, o);
      }
    }
    forall j | 0 <= j < |b| && b[j].used
      ensures SamePayload(b, j, mem, m)
    {
      OutsideBlock(b, k, j);
      BlockFits(b, j);
    }
  }

  /** Payload words carry over a join, since the used blocks stay where they are. */
  lemma JoinedUndisturbed(b: seq<Block>, k: nat, mem0: seq<nat>, mem: seq<nat>, m: seq<nat>)
    requires k + 1 < |b| && !b[k].used && !b[k + 1].used
    requires Undisturbed(b, mem0, mem) && Undisturbed(b, mem, m)
    ensures Undisturbed(Joined(b, k), mem0, m)
  {
    hide Pos;
    var c := Joined(b, k);
    JoinedPositions(b, k);
    forall j | 0 <= j < |c| && c[j].used
      ensures SamePayload(c, j, mem0, m)
    {
      var o := if j < k then j else j + 1;
      assert c[j] == b[o] && SamePayload(b, o, mem0, mem) && SamePayload(b, o, mem, m);
    }
  }

  lemma MergeStep(b: seq<Block>, k: nat)
    requires k < |b|
    ensures k + 1 < |b| && !b[k].used && !b[k + 1].used ==>
              b[..k] + Merge(b[k..]) == Joined(b, k)[..k] + Merge(Joined(b, k)[k..])
    ensures !(k + 1 < |b| && !b[k].used && !b[k + 1].used) ==>
              b[..k] + Merge(b[k..]) == b[..k + 1] + Merge(b[k + 1..])
  {
    if k + 1 < |b| && !b[k].used && !b[k + 1].used {
      assert Joined(b, k)[k..] == [Join(b[k], b[k + 1])] + b[k + 2..];
      assert b[k..][2..] == b[k + 2..];
    } else {
      assert b[k..][1..] == b[k + 1..];
      assert b[..k + 1] == b[..k] + [b[k]];
    }
  }

  /** NULL iff nothing is asked for or no free block is large enough; otherwise the lowest that is. */
  ghost predicate Allocated(b: seq<Block>, b': seq<Block>, request: nat, ptr: nat) {
    var n := RoundUp(request) / 4;
    if request == 0 || forall i :: 0 <= i < |b| ==> !Fits(b[i], n) then ptr == 0 && b' == b
    else exists i: nat :: FirstFit(b, n, i) && b' == Taken(b, i, n) && ptr == Ptr(b, i)
  }

  const INITIAL: Block := Block(POOL_WORDS - HDR, false)

  class Heap {
    const heap: array<nat>   // g_heap, one element per 32-bit word
    var ready: bool          // g_heap_init
    ghost var blocks: seq<Block>

    ghost predicate Valid()
      reads this, heap
    {
      && heap.Length == POOL_WORDS
      && 0 < |blocks| && NoAdjacentFree(blocks)
      && if ready then Tiles(heap[..], blocks) else blocks == [INITIAL]
    }

    constructor ()
      ensures Valid() && fresh(heap) && blocks == [INITIAL]
    {
      heap := new nat[POOL_WORDS];
      ready := false;
      blocks := [INITIAL];
    }

    method HeapInit()
      requires Valid() && !ready
      modifies this`ready, heap
      ensures Valid() && ready
    {
      heap[0], heap[1] := 4 * (POOL_WORDS - HDR), 0;
      ready := true;
      assert Pos(blocks, 1) == POOL_WORDS;
      assert HeaderAt(heap[..], blocks, 0);
    }

    /** Takes size bytes from the free block i at word p, splitting it if the rest can hold a word. */
    method Carve(p: nat, size: nat, ghost i: nat)
      requires Valid() && ready && i < |blocks| && p == Pos(blocks, i) && Fits(blocks[i], size / 4) && size % 4 == 0
      modifies this`blocks, heap
      ensures Valid() && blocks == Taken(old(blocks), i, size / 4)
      ensures Undisturbed(old(blocks), old(heap[..]), heap[..])
    {
      hide Pos, Taken, Tiles, NoAdjacentFree, Undisturbed;
      ghost var mem, n := heap[..], size / 4;
      BlockInside(mem, blocks, i);
      BlockInPool(mem, blocks, i, p);
      TakenTiles(mem, blocks, i, n);
      TakenKeepsInvariant(blocks, i, n);
      if heap[p] >= size + 8 + 4 {
        var next := p + HDR + size / 4;
        heap[next] := heap[p] - size - 8;
        heap[next + 1] := 0;
        heap[p] := size;
      }
      heap[p + 1] := 1;
      assert heap[..] == TakenWords(mem, blocks, i, n);
      TakenNonEmpty(blocks, i, n);
      blocks := Taken(blocks, i, n);
    }

    /** Returns the byte offset of the payload, or 0 for NULL. */
    method Malloc(request: nat) returns (ptr: nat)
      requires Valid() && request < UINT_MOD
      modifies this, heap
      ensures Valid()
      ensures Allocated(old(blocks), blocks, request, ptr)
      ensures old(ready) ==> Undisturbed(old(blocks), old(heap[..]), heap[..])
    {
      hide Pos, Taken, Tiles, NoAdjacentFree, Undisturbed, RoundUp;
      if !ready {
        HeapInit();
      }
      ghost var mem := heap[..];
      UndisturbedFromStart(mem, blocks);
      if request == 0 {
        return 0;
      }
      var size := RoundUp(request);
      ghost var n := size / 4;
      ghost var i: nat := 0;
      var p: nat := 0;
      StartOfPool(blocks);
      while p + HDR <= POOL_WORDS
        invariant Valid() && ready && heap[..] == mem && blocks == old(blocks)
        invariant i <= |blocks| && p == Pos(blocks, i)
        invariant forall j :: 0 <= j < i ==> !Fits(blocks[j], n)
        decreases |blocks| - i
      {
        BlockInPool(mem, blocks, i, p);
        if heap[p + 1] == 0 && heap[p] >= size {
          assert FirstFit(blocks, n, i);
          Carve(p, size, i);
          return 4 * (p + HDR);
        }
        p := p + HDR + heap[p] / 4;
        i := i + 1;
      }
      EndOfPool(mem, blocks, i);
      return 0;
    }

    /** Gives a live payload back and coalesces the pool. */
    method Free(ptr: nat, ghost i: nat)
      requires Valid()
      requires ptr != 0 ==> ready && i < |blocks| && blocks[i].used && ptr == Ptr(blocks, i)
      modifies this`blocks, heap
      ensures Valid() && blocks == if ptr == 0 then old(blocks) else Released(old(blocks), i)
      ensures ready ==> Undisturbed(blocks, old(heap[..]), heap[..])
    {
      hide Pos, Tiles, NoAdjacentFree, Undisturbed, Joined, Merge;
      ghost var mem0 := heap[..];
      if ptr == 0 {
        if ready {
          UndisturbedFromStart(mem0, blocks);
        }
        return;
      }
      BlockInside(mem0, blocks, i);
      ReleaseTiles(mem0, blocks, i);
      heap[ptr / 4 - 1] := 0;
      ghost var c := blocks[i := Block(blocks[i].words, false)];
      ReleaseUndisturbed(mem0, blocks, i);
      ghost var merged := Merge(c);
      ghost var k: nat := 0;
      var p: nat := 0;
      StartOfPool(c);
      assert c[..0] + Merge(c[0..]) == merged by {
        assert c[0..] == c;
      }
      while p + HDR <= POOL_WORDS
        invariant Tiles(heap[..], c) && Undisturbed(c, mem0, heap[..])
        invariant k <= |c| && p == Pos(c, k) && c[..k] + Merge(c[k..]) == merged
        decreases |c| - k
      {
        ghost var mem := heap[..];
        BlockInPool(mem, c, k, p);
        MergeStep(c, k);
        var next := p + HDR + heap[p] / 4;
        if heap[p + 1] == 0 && next + HDR <= POOL_WORDS {
          BlockInPool(mem, c, k + 1, next);
          if heap[next + 1] == 0 {
            JoinTiles(mem, c, k);
            JoinedUndisturbed(c, k, mem0, mem, mem[p := heap[p] + (8 + heap[next])]);
            heap[p] := heap[p] + (8 + heap[next]);
            JoinedPositions(c, k);
            c := Joined(c, k);
            continue;
          }
        }
        p := p + HDR + heap[p] / 4;
        k := k + 1;
      }
      EndOfPool(heap[..], c, k);
      assert c == merged by {
        assert c[..k] == c && c[k..] == [];
        MergeOfMerged([]);
      }
      MergeKeepsInvariant(old(blocks)[i := Block(old(blocks)[i].words, false)]);
      blocks := c;
    }

    /** memcpy of words into the payload of block k, from the payload of block i. */
    method CopyPayload(dst: nat, src: nat, words: nat, ghost k: nat, ghost i: nat)
      requires Valid() && ready && k < |blocks| && i < |blocks| && i != k
      requires dst == Ptr(blocks, k) && src == Ptr(blocks, i) && words == blocks[i].words <= blocks[k].words
      modifies heap
      ensures Valid()
      ensures dst / 4 + words <= POOL_WORDS && src / 4 + words <= POOL_WORDS
      ensures heap[dst / 4..dst / 4 + words] == old(heap[src / 4..src / 4 + words])
      ensures forall j :: 0 <= j < |blocks| && j != k ==> SamePayload(blocks, j, old(heap[..]), heap[..])
    {
      hide Pos, Tiles, NoAdjacentFree, SamePayload, HeaderAt;
      ghost var mem := heap[..];
      BlockInside(mem, blocks, k);
      BlockInside(mem, blocks, i);
      BlockFits(blocks, k);
      BlockFits(blocks, i);
      OutsideBlock(blocks, i, k);
      var to, from := dst / 4, src / 4;
      for w := 0 to words
        invariant forall x :: to <= x < to + w ==> heap[x] == mem[x - to + from]
        invariant forall x :: 0 <= x < POOL_WORDS && !(to <= x < to + w) ==> heap[x] == mem[x]
      {
        heap[to + w] := heap[from + w];
      }
      PayloadWritesKeep(blocks, k, mem, heap[..]);
    }

    /**
     * Resizes a live payload; the contents survive a move, and a failure leaves everything as it was. inside is false
     * exactly if the copy runs past the block that malloc found; the model ends before that copy.
     */
    method Realloc(ptr: nat, request: nat, ghost i: nat) returns (q: nat, inside: bool)
      requires Valid() && request < UINT_MOD
      requires ptr != 0 ==> ready && i < |blocks| && blocks[i].used && ptr == Ptr(blocks, i)
      modifies this, heap
      ensures Valid()
      ensures ptr == 0 ==> inside && Allocated(old(blocks), blocks, request, q)
      ensures ptr != 0 && request == 0 ==> inside && q == 0 && blocks == Released(old(blocks), i)
      ensures ptr != 0 && request != 0 ==>
        var m := old(blocks)[i].words;
        && (inside <==> 4 * m >= request || !Overruns(old(blocks), i, request))
        && if 4 * m >= request then q == ptr && blocks == old(blocks) && heap[..] == old(heap[..])
           else Moved(old(blocks), blocks, old(heap[..]), heap[..], i, request, q, inside)
      ensures forall p, words :: IsLive(old(blocks), p, words) && (p != ptr || !inside) && old(ready) ==>
        Kept(p, words, old(heap[..]), heap[..])
    {
      hide Pos, Taken, Tiles, NoAdjacentFree, Undisturbed, Merge, RoundUp, Kept, IsLive, SamePayload, Overruns, Moved;
      ghost var b0, mem0 := blocks, heap[..];
      if ptr == 0 {
        q := Malloc(request);
        KeptIf(b0, old(ready), mem0, heap[..]);
        return q, true;
      }
      if request == 0 {
        Free(ptr, i);
        ReleasedKept(b0, i, mem0, heap[..]);
        return 0, true;
      }
      BlockInside(mem0, blocks, i);
      BlockInPool(mem0, blocks, i, Pos(blocks, i));
      var oldSize := heap[ptr / 4 - 2];
      if oldSize >= request {
        UndisturbedFromStart(mem0, b0);
        KeptIf(b0, true, mem0, mem0);
        return ptr, true;
      }
      q, inside := Move(ptr, request, oldSize, i);
    }

    /** The case of a block that is too small: allocate, copy, free. */
    method Move(ptr: nat, request: nat, oldSize: nat, ghost i: nat) returns (q: nat, inside: bool)
      requires Valid() && ready && 0 < request < UINT_MOD
      requires i < |blocks| && blocks[i].used && ptr == Ptr(blocks, i) && oldSize == 4 * blocks[i].words < request
      modifies this, heap
      ensures Valid()
      ensures inside <==> !Overruns(old(blocks), i, request)
      ensures Moved(old(blocks), blocks, old(heap[..]), heap[..], i, request, q, inside)
      ensures forall p, words :: IsLive(old(blocks), p, words) && (p != ptr || !inside) ==> Kept(p, words, old(heap[..]), heap[..])
    {
      hide Pos, Taken, Tiles, NoAdjacentFree, Undisturbed, Merge, RoundUp, Kept, IsLive, SamePayload, Overruns;
      ghost var b0, mem0 := blocks, heap[..];
      q := Malloc(request);
      KeptIf(b0, true, mem0, heap[..]);
      ghost var n: nat := RoundUp(request) / 4;
      if q == 0 {
        NoneOverruns(b0, i, request);
        return q, true;
      }
      ghost var k: nat :| FirstFit(b0, n, k) && blocks == Taken(b0, k, n) && q == Ptr(b0, k);
      ghost var b1, mem1 := blocks, heap[..];
      ghost var i1 := MovedIndex(b0, k, n, i);
      AfterTaken(b0, k, n, i);
      LiveOf(b0, i);
      TakenCovers(b0, i, request, k);
      HeaderBefore(mem1, b1, k);
      if heap[q / 4 - 2] < oldSize {   // no part of the source, which copies regardless
        return q, false;
      }
      CopyPayload(q, ptr, oldSize / 4, k, i1);
      ghost var mem2 := heap[..];
      Free(ptr, i1);
      MovedInside(b0, k, i, request, mem0, mem1, mem2, heap[..]);
      MovedKept(b0, k, n, i, mem0, mem1, mem2, heap[..]);
      return q, true;
    }
  }

  /** What moving block i of b for this size comes to: no room, the payload at q, or a block at q that is too small. */
  ghost predicate Moved(b: seq<Block>, b': seq<Block>, mem: seq<nat>, mem': seq<nat>, i: nat, request: nat, q: nat, inside: bool)
    requires i < |b|
  {
    var n, p, m := RoundUp(request) / 4, Ptr(b, i), b[i].words;
    if forall j :: 0 <= j < |b| ==> !Fits(b[j], n) then q == 0 && b' == b
    else if inside then
      && q != 0 && q / 4 + m <= |mem'| && p / 4 + m <= |mem|
      && mem'[q / 4..q / 4 + m] == mem[p / 4..p / 4 + m]
      && exists size: nat :: MovedTo(b, b', p, q, size) && size >= m && (request <= UINT_MOD - 4 ==> 4 * size >= request)
    else exists k: nat :: FirstFit(b, n, k) && b' == Taken(b, k, n) && q == Ptr(b, k) && b'[k].words < m
  }

  /** Allocating, copying and freeing amount to the move. */
  lemma MovedInside(b: seq<Block>, k: nat, i: nat, request: nat, mem0: seq<nat>, mem1: seq<nat>, mem2: seq<nat>, mem3: seq<nat>)
    requires i < |b| && b[i].used && 4 * b[i].words < request < UINT_MOD && FirstFit(b, RoundUp(request) / 4, k)
    requires !Overruns(b, i, request)
    requires Kept(Ptr(b, i), b[i].words, mem0, mem1)
    requires var n := RoundUp(request) / 4;
      Undisturbed(Released(Taken(b, k, n), MovedIndex(b, k, n, i)), mem2, mem3)
    requires var q, p, m := Ptr(b, k) / 4, Ptr(b, i) / 4, b[i].words;
      q + m <= |mem2| && p + m <= |mem1| && mem2[q..q + m] == mem1[p..p + m]
    ensures var n := RoundUp(request) / 4;
      Moved(b, Released(Taken(b, k, n), MovedIndex(b, k, n, i)), mem0, mem3, i, request, Ptr(b, k), true)
  {
    hide Pos, Taken, Undisturbed, RoundUp, Kept, IsLive, Overruns;
    var n := RoundUp(request) / 4;
    TakenCovers(b, i, request, k);
    AfterTaken(b, k, n, i);
    MovedLive(b, k, n, i);
    assert MovedTo(b, Released(Taken(b, k, n), MovedIndex(b, k, n, i)), Ptr(b, i), Ptr(b, k), Taken(b, k, n)[k].words);
    MovedContents(b, k, n, i, mem0, mem1, mem2, mem3);
  }

  lemma NoneOverruns(b: seq<Block>, i: nat, request: nat)
    requires i < |b| && request < UINT_MOD && forall j :: 0 <= j < |b| ==> !Fits(b[j], RoundUp(request) / 4)
    ensures !Overruns(b, i, request)
  {
    if UINT_MOD - 4 < request {
      assert (request + 3) % UINT_MOD == request + 3 - UINT_MOD;
    }
  }

  /** The header in front of a payload. */
  lemma HeaderBefore(mem: seq<nat>, b: seq<Block>, k: nat)
    requires Tiles(mem, b) && k < |b|
    ensures HDR <= Ptr(b, k) / 4 <= |mem| && mem[Ptr(b, k) / 4 - 2] == 4 * b[k].words
  {
    assert HeaderAt(mem, b, k);
  }

  /** The live payloads of b' are those of b with the one at ptr gone and one of size words at q. */
  ghost predicate MovedTo(b: seq<Block>, b': seq<Block>, ptr: nat, q: nat, size: nat) {
    forall p, words :: IsLive(b', p, words) <==> (IsLive(b, p, words) && p != ptr) || (p == q && words == size)
  }

  /** The words from pointer ptr on hold what they held. */
  ghost predicate Kept(ptr: nat, words: nat, mem: seq<nat>, mem': seq<nat>) {
    && ptr / 4 + words <= |mem| && |mem'| == |mem|
    && mem'[ptr / 4..ptr / 4 + words] == mem[ptr / 4..ptr / 4 + words]
  }

  lemma LiveIsKept(b: seq<Block>, mem: seq<nat>, mem': seq<nat>, ptr: nat, words: nat)
    requires Undisturbed(b, mem, mem') && IsLive(b, ptr, words)
    ensures Kept(ptr, words, mem, mem')
  {
    hide Pos;
    var i :| 0 <= i < |b| && b[i] == Block(words, true) && Ptr(b, i) == ptr;
    assert SamePayload(b, i, mem, mem');
  }

  lemma LiveOf(b: seq<Block>, i: nat)
    requires i < |b| && b[i].used
    ensures IsLive(b, Ptr(b, i), b[i].words)
  {
    assert b[i] == Block(b[i].words, true);
  }

  lemma KeptIf(b: seq<Block>, known: bool, mem: seq<nat>, mem': seq<nat>)
    requires known ==> Undisturbed(b, mem, mem')
    ensures known ==> forall p, words :: IsLive(b, p, words) ==> Kept(p, words, mem, mem')
  {
    hide IsLive, Undisturbed, Kept;
    if known {
      forall p, words | IsLive(b, p, words)
        ensures Kept(p, words, mem, mem')
      {
        LiveIsKept(b, mem, mem', p, words);
      }
    }
  }

  lemma ReleasedKept(b: seq<Block>, i: nat, mem: seq<nat>, mem': seq<nat>)
    requires i < |b| && b[i].used && Undisturbed(Released(b, i), mem, mem')
    ensures forall p, words :: IsLive(b, p, words) && p != Ptr(b, i) ==> Kept(p, words, mem, mem')
  {
    hide IsLive, Undisturbed, Kept;
    forall p, words | IsLive(b, p, words) && p != Ptr(b, i)
      ensures Kept(p, words, mem, mem')
    {
      ReleasedLive(b, i, p, words);
      LiveIsKept(Released(b, i), mem, mem', p, words);
    }
  }

  /** The index of block i after block k has been taken, possibly split. */
  function MovedIndex(b: seq<Block>, k: nat, n: nat, i: nat): (j: nat)
    requires k < |b| && Fits(b[k], n) && i < |b|
    ensures j < |Taken(b, k, n)|
  {
    if i < k then i else i + |Taken(b, k, n)| - |b|
  }

  lemma AfterTaken(b: seq<Block>, k: nat, n: nat, i: nat)
    requires k < |b| && Fits(b[k], n) && i < |b| && b[i].used
    ensures var r := Taken(b, k, n);
      var i1 := MovedIndex(b, k, n, i);
      && k < |r| && i1 != k && r[i1] == b[i] && Ptr(r, i1) == Ptr(b, i)
      && r[k].used && r[k].words >= n && Ptr(r, k) == Ptr(b, k) && Ptr(b, i) != Ptr(b, k)
  {
    hide Pos;
    TakenPositions(b, k, n);
    if Ptr(b, i) == Ptr(b, k) {
      LiveIsUnique(b, i, k);
    }
  }

  /** The live payloads after a move: the old one is gone, the new one has come. */
  lemma MovedLive(b: seq<Block>, k: nat, n: nat, i: nat)
    requires k < |b| && Fits(b[k], n) && i < |b| && b[i].used
    ensures var r := Taken(b, k, n);
      var i1 := MovedIndex(b, k, n, i);
      && r[i1].used
      && forall p, words ::
           IsLive(Released(r, i1), p, words)
           <==> (IsLive(b, p, words) && p != Ptr(b, i)) || (p == Ptr(b, k) && words == r[k].words)
  {
    hide Pos, IsLive, Taken;
    AfterTaken(b, k, n, i);
    var r := Taken(b, k, n);
    var i1 := MovedIndex(b, k, n, i);
    forall p, words
      ensures IsLive(Released(r, i1), p, words)
           <==> (IsLive(b, p, words) && p != Ptr(b, i)) || (p == Ptr(b, k) && words == r[k].words)
    {
      TakenLive(b, k, n, p, words);
      ReleasedLive(r, i1, p, words);
    }
  }

  /** All other payloads survive the three stages of a move. */
  lemma MovedKept(b: seq<Block>, k: nat, n: nat, i: nat, mem0: seq<nat>, mem1: seq<nat>, mem2: seq<nat>, mem3: seq<nat>)
    requires k < |b| && Fits(b[k], n) && i < |b| && b[i].used
    requires Undisturbed(b, mem0, mem1)
    requires forall j :: 0 <= j < |Taken(b, k, n)| && j != k ==> SamePayload(Taken(b, k, n), j, mem1, mem2)
    requires var r := Taken(b, k, n);
      var i1 := MovedIndex(b, k, n, i);
      i1 < |r| && Undisturbed(Released(r, i1), mem2, mem3)
    ensures forall p, words :: IsLive(b, p, words) && p != Ptr(b, i) ==> Kept(p, words, mem0, mem3)
  {
    hide Pos, Taken, Undisturbed;
    var r := Taken(b, k, n);
    var i1 := MovedIndex(b, k, n, i);
    MovedLive(b, k, n, i);
    forall p, words | IsLive(b, p, words) && p != Ptr(b, i)
      ensures Kept(p, words, mem0, mem3)
    {
      LiveIsKept(b, mem0, mem1, p, words);
      LiveIsKept(Released(r, i1), mem2, mem3, p, words);
      var j :| 0 <= j < |b| && b[j] == Block(words, true) && Ptr(b, j) == p;
      AfterTaken(b, k, n, j);
      var j1 := MovedIndex(b, k, n, j);
      assert SamePayload(r, j1, mem1, mem2);
    }
  }

  /** What was in the old payload at first is in the new one at last. */
  lemma MovedContents(b: seq<Block>, k: nat, n: nat, i: nat, mem0: seq<nat>, mem1: seq<nat>, mem2: seq<nat>, mem3: seq<nat>)
    requires k < |b| && Fits(b[k], n) && i < |b| && b[i].used
    requires Kept(Ptr(b, i), b[i].words, mem0, mem1)
    requires Undisturbed(Released(Taken(b, k, n), MovedIndex(b, k, n, i)), mem2, mem3)
    requires var q, p, m := Ptr(b, k) / 4, Ptr(b, i) / 4, b[i].words;
      && m <= Taken(b, k, n)[k].words
      && q + m <= |mem2| && p + m <= |mem1| && mem2[q..q + m] == mem1[p..p + m]
    ensures var q, p, m := Ptr(b, k) / 4, Ptr(b, i) / 4, b[i].words;
      q + m <= |mem3| && p + m <= |mem0| && mem3[q..q + m] == mem0[p..p + m]
  {
    hide Pos, Undisturbed;
    var r := Taken(b, k, n);
    var q, m := Ptr(b, k), b[i].words;
    AfterTaken(b, k, n, i);
    assert IsLive(r, q, r[k].words);
    TakenLive(b, k, n, q, r[k].words);
    MovedLive(b, k, n, i);
    LiveIsKept(Released(r, MovedIndex(b, k, n, i)), mem2, mem3, q, r[k].words);
    assert mem3[q / 4..q / 4 + r[k].words][..m] == mem3[q / 4..q / 4 + m];
    assert mem2[q / 4..q / 4 + r[k].words][..m] == mem2[q / 4..q / 4 + m];
  }

  /** mem' differs from mem in the payload of block i at most. */
  ghost predicate OnlyPayload(b: seq<Block>, i: nat, mem: seq<nat>, mem': seq<nat>)
    requires i < |b|
  {
    |mem'| == |mem| && forall w :: 0 <= w < |mem| && !(Pos(b, i) + HDR <= w < Pos(b, i) + HDR + b[i].words) ==> mem'[w] == mem[w]
  }

  lemma PayloadWritesKeep(b: seq<Block>, i: nat, mem: seq<nat>, mem': seq<nat>)
    requires i < |b| && Tiles(mem, b) && OnlyPayload(b, i, mem, mem')
    ensures Tiles(mem', b)
    ensures forall j :: 0 <= j < |b| && j != i ==> SamePayload(b, j, mem, mem')
  {
    hide Pos;
    BlockFits(b, i);
    forall j | 0 <= j < |b|
      ensures HeaderAt(mem', b, j) && (j != i ==> SamePayload(b, j, mem, mem'))
    {
      assert HeaderAt(mem, b, j);
      if j != i {
        OutsideBlock(b, i, j);
      }
    }
  }

  lemma BlockInside(mem: seq<nat>, b: seq<Block>, i: nat)
    requires Tiles(mem, b) && i < |b|
    ensures Total(b) == |mem| && Pos(b, i) + HDR <= |mem|
  {
    BlockFits(b, i);
  }

  lemma UndisturbedFromStart(mem: seq<nat>, b: seq<Block>)
    requires Tiles(mem, b)
    ensures Undisturbed(b, mem, mem)
  {
    forall i | 0 <= i < |b| && b[i].used
      ensures SamePayload(b, i, mem, mem)
    {
      BlockFits(b, i);
    }
  }

  lemma ReleaseUndisturbed(mem: seq<nat>, b: seq<Block>, i: nat)
    requires i < |b| && Tiles(mem, b) && Pos(b, i) + 1 < |mem|
    ensures Undisturbed(b[i := Block(b[i].words, false)], mem, mem[Pos(b, i) + 1 := 0])
  {
    hide Pos;
    var c := b[i := Block(b[i].words, false)];
    ReleaseTiles(mem, b, i);
    SamePositions(b, c);
    forall j | 0 <= j < |c| && c[j].used
      ensures SamePayload(c, j, mem, mem[Pos(b, i) + 1 := 0])
    {
      assert b[j] == c[j] && SamePayload(b, j, mem, mem[Pos(b, i) + 1 := 0]);
    }
  }

  lemma StartOfPool(b: seq<Block>)
    ensures Pos(b, 0) == 0
  {
  }

  /** Inside the pool the walk stands on a block, and the next position is that of the next block. */
  lemma BlockInPool(mem: seq<nat>, b: seq<Block>, i: nat, p: nat)
    requires Tiles(mem, b) && i <= |b| && p == Pos(b, i) && p + HDR <= |mem|
    ensures i < |b| && HeaderAt(mem, b, i) && Pos(b, i + 1) == p + HDR + mem[p] / 4 && Pos(b, i + 1) <= |mem|
    ensures i + 1 < |b| <==> Pos(b, i + 1) + HDR <= |mem|
  {
    BlockFits(b, i);
    if i + 1 < |b| {
      BlockFits(b, i + 1);
    }
  }

  lemma EndOfPool(mem: seq<nat>, b: seq<Block>, i: nat)
    requires Tiles(mem, b) && i <= |b| && Pos(b, i) + HDR > |mem|
    ensures i == |b|
  {
    if i < |b| {
      BlockFits(b, i);
    }
  }

  lemma TakenNonEmpty(b: seq<Block>, i: nat, n: nat)
    requires i < |b| && Fits(b[i], n)
    ensures 0 < |Taken(b, i, n)|
  {
  }
}
