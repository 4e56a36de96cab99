// The physical layout of the two-level segregated fit heap: the block headers of every pool, as a
// map from header address to header contents, and what the allocator's steps do to it.
// Addresses and sizes are counted in 32-bit words.
module TlsfBlocks {
  const OVERHEAD: nat := 2
  const MIN_WORDS: nat := 4
  const POOL_LIMIT: nat := 0x80_0000

  datatype Pool = Pool(lo: nat, hi: nat)

  /** A header: previous neighbour, payload size, F_FREE, F_PREV_FREE, and the pool it stands in. */
  datatype Block = Block(prev: nat, words: nat, free: bool, prevFree: bool, pool: Pool)

  type Blocks = map<nat, Block>

  function End(b: Blocks, a: nat): nat
    requires a in b
  {
    a + OVERHEAD + b[a].words
  }

  ghost predicate IsLast(b: Blocks, a: nat)
    requires a in b
  {
    a + OVERHEAD == b[a].pool.hi
  }

  /** What a header says about its neighbours, and what the neighbours say about it. */
  ghost predicate Local(b: Blocks, a: nat)
    requires a in b
  {
    && InPool(b, a)
    && (!IsLast(b, a) ==> NextAgrees(b, a))
    && (a != b[a].pool.lo ==> PrevAgrees(b, a))
  }

  /** The block stands within its pool, whose first and last blocks are the empty sentinels. */
  ghost predicate InPool(b: Blocks, a: nat)
    requires a in b
  {
    var x := b[a];
    && 0 < x.pool.lo <= a && End(b, a) <= x.pool.hi && x.pool.lo + 10 <= x.pool.hi < x.pool.lo + 6 + POOL_LIMIT
    && (a == x.pool.lo || IsLast(b, a) ==> x.words == 0 && !x.free)
    && (a == x.pool.lo ==> x.prev == 0 && !x.prevFree)
    && (a != x.pool.lo && !IsLast(b, a) ==> MIN_WORDS <= x.words && x.pool.lo + OVERHEAD <= a && End(b, a) + OVERHEAD <= x.pool.hi)
  }

  /** prev_phys and PREV_FREE of the next block agree with the block. */
  ghost predicate NextAgrees(b: Blocks, a: nat)
    requires a in b
  {
    var e := End(b, a);
    e in b && b[e].prev == a && b[e].prevFree == b[a].free && b[e].pool == b[a].pool
  }

  ghost predicate PrevAgrees(b: Blocks, a: nat)
    requires a in b
  {
    b[a].prev in b && End(b, b[a].prev) == a && b[b[a].prev].pool == b[a].pool
  }

  ghost predicate Disjoint(b: Blocks) {
    forall a, c :: a in b && c in b && a < c ==> End(b, a) <= c
  }

  ghost predicate Ok(b: Blocks) {
    Disjoint(b) && forall a {:trigger Local(b, a)} :: a in b ==> Local(b, a)
  }

  /** Two free neighbours. */
  ghost predicate Pair(b: Blocks, a: nat)
    requires a in b
  {
    End(b, a) in b && b[a].free && b[End(b, a)].free
  }

  ghost predicate Coalesced(b: Blocks) {
    forall a {:trigger Pair(b, a)} :: a in b ==> !Pair(b, a)
  }

  /** The live payloads: from the pointer malloc returned to the number of words it holds. */
  ghost predicate IsLive(b: Blocks, ptr: nat, words: nat) {
    OVERHEAD <= ptr && ptr - OVERHEAD in b && b[ptr - OVERHEAD].words == words && words > 0 && !b[ptr - OVERHEAD].free
  }

  // ---- What the invariant says about the pools

  /** Live payloads never overlap. */
  lemma LiveDisjoint(b: Blocks, p: nat, m: nat, q: nat, n: nat)
    requires Ok(b) && IsLive(b, p, m) && IsLive(b, q, n) && p != q
    ensures p + m + OVERHEAD <= q || q + n + OVERHEAD <= p
  {
  }

  ghost predicate Covers(b: Blocks, a: nat, w: nat) {
    a in b && a <= w < End(b, a)
  }

  lemma {:induction false} CoveredFrom(b: Blocks, a: nat, w: nat)
    requires Ok(b) && a in b && a <= w < b[a].pool.hi
    ensures exists c :: Covers(b, c, w) && b[c].pool == b[a].pool
    decreases w - a
  {
    assert Local(b, a);
    if End(b, a) <= w {
      CoveredFrom(b, End(b, a), w);
    } else {
      assert Covers(b, a, w);
    }
  }

  /** The blocks of a pool tile it, from the sentinel at its start to the one at its end. */
  lemma PoolIsTiled(b: Blocks, pool: Pool, w: nat)
    requires Ok(b) && pool.lo in b && b[pool.lo].pool == pool && pool.lo <= w < pool.hi
    ensures exists a :: Covers(b, a, w) && b[a].pool == pool
    ensures forall a, c :: Covers(b, a, w) && Covers(b, c, w) ==> a == c
  {
    CoveredFrom(b, pool.lo, w);
  }

  /** With nothing live, a pool is one free block between its sentinels. */
  lemma AllFreeIsOneBlock(b: Blocks, pool: Pool)
    requires Ok(b) && Coalesced(b) && pool.lo in b && b[pool.lo].pool == pool
    requires forall p: nat, words: nat :: IsLive(b, p, words) ==> b[p - OVERHEAD].pool != pool
    ensures var a := pool.lo + OVERHEAD;
      a in b && b[a] == Block(pool.lo, b[a].words, true, false, pool) && b[a].words + 3 * OVERHEAD == pool.hi - pool.lo
  {
    var a := pool.lo + OVERHEAD;
    assert Local(b, pool.lo) && Local(b, a);
    assert !IsLive(b, a + OVERHEAD, b[a].words);
    var e := End(b, a);
    assert Local(b, e) && !Pair(b, a);
    assert !IsLive(b, e + OVERHEAD, b[e].words);
  }

  // ---- Allocation

  /** Block a cut to n words of payload; the rest becomes a free block. */
  function Split(b: Blocks, a: nat, n: nat): Blocks
    requires a in b && n + OVERHEAD <= b[a].words && End(b, a) in b
  {
    var t := a + OVERHEAD + n;
    b[t := Block(a, b[a].words - n - OVERHEAD, true, false, b[a].pool)]
     [End(b, a) := b[End(b, a)].(prev := t)][a := b[a].(words := n)]
  }

  predicate Splits(b: Blocks, a: nat, n: nat)
    requires a in b
  {
    b[a].words >= n + OVERHEAD + MIN_WORDS
  }

  /** Block a after blk_split. */
  function Cut(b: Blocks, a: nat, n: nat): Blocks
    requires a in b && End(b, a) in b
  {
    if Splits(b, a, n) then Split(b, a, n) else b
  }

  /** Block a marked used, and its successor told so. */
  function Used(b: Blocks, a: nat): Blocks
    requires a in b && End(b, a) in b
  {
    b[a := b[a].(free := false)][End(b, a) := b[End(b, a)].(prevFree := false)]
  }

  lemma CutFacts(b: Blocks, a: nat, n: nat)
    requires Ok(b) && a in b && b[a].free && MIN_WORDS <= n <= b[a].words
    ensures Local(b, a) && End(b, a) in b && Local(b, End(b, a)) && a != End(b, a) && !IsLast(b, a)
    ensures Splits(b, a, n) ==> a + OVERHEAD + n !in b
    ensures var c := Cut(b, a, n); a in c && End(c, a) in c && n <= c[a].words < n + OVERHEAD + MIN_WORDS
  {
    assert Local(b, a) && Local(b, End(b, a));
  }

  lemma CutDisjoint(b: Blocks, a: nat, n: nat)
    requires Ok(b) && a in b && b[a].free && MIN_WORDS <= n <= b[a].words && End(b, a) in b
    ensures Disjoint(Cut(b, a, n))
  {
    hide Local;
    CutFacts(b, a, n);
    var r, e := Cut(b, a, n), End(b, a);
    forall x, y | x in r && y in r && x < y
      ensures End(r, x) <= y
    {
      var t := a + OVERHEAD + n;
      var x0, y0 := if x in b then x else a, if y in b then y else a;
      assert x0 < y0 ==> End(b, x0) <= y0;
      assert x0 < a ==> End(b, x0) <= a;
      assert a < y0 ==> End(b, a) <= y0;
    }
  }

  /** The state after an allocation of n words in the free block a. */
  function Alloc(b: Blocks, a: nat, n: nat): Blocks
    requires Ok(b) && a in b && b[a].free && MIN_WORDS <= n <= b[a].words
  {
    CutFacts(b, a, n);
    Used(Cut(b, a, n), a)
  }

  lemma AllocLocal(b: Blocks, a: nat, n: nat, x: nat)
    requires Ok(b) && Coalesced(b) && a in b && b[a].free && MIN_WORDS <= n <= b[a].words
    requires x in Alloc(b, a, n)
    ensures Local(Alloc(b, a, n), x)
  {
    hide Pair, Coalesced, Disjoint, Local, Alloc, Cut, Used;
    var r := Alloc(b, a, n);
    AllocInPool(b, a, n, x);
    if !IsLast(r, x) {
      AllocNext(b, a, n, x);
    }
    if x != r[x].pool.lo {
      AllocPrev(b, a, n, x);
    }
    LocalIs(r, x);
  }

  lemma LocalIs(b: Blocks, a: nat)
    requires a in b
    ensures Local(b, a) <==>
      && InPool(b, a)
      && (!IsLast(b, a) ==> NextAgrees(b, a))
      && (a != b[a].pool.lo ==> PrevAgrees(b, a))
  {
    hide InPool, NextAgrees, PrevAgrees;
  }

  lemma AllocInPool(b: Blocks, a: nat, n: nat, x: nat)
    requires Ok(b) && a in b && b[a].free && MIN_WORDS <= n <= b[a].words
    requires x in Alloc(b, a, n)
    ensures InPool(Alloc(b, a, n), x)
  {
    hide PrevAgrees, Disjoint;
    CutFacts(b, a, n);
    if x in b {
      assert Local(b, x);
    }
  }

  lemma AllocNext(b: Blocks, a: nat, n: nat, x: nat)
    requires Ok(b) && Coalesced(b) && a in b && b[a].free && MIN_WORDS <= n <= b[a].words
    requires x in Alloc(b, a, n) && !IsLast(Alloc(b, a, n), x)
    ensures NextAgrees(Alloc(b, a, n), x)
  {
    hide InPool, Disjoint;
    CutFacts(b, a, n);
    assert !Pair(b, a);
    if x in b && x != a {
      assert Local(b, x);
    }
  }

  lemma AllocPrev(b: Blocks, a: nat, n: nat, x: nat)
    requires Ok(b) && a in b && b[a].free && MIN_WORDS <= n <= b[a].words
    requires x in Alloc(b, a, n) && x != Alloc(b, a, n)[x].pool.lo
    ensures PrevAgrees(Alloc(b, a, n), x)
  {
    hide InPool, Disjoint;
    CutFacts(b, a, n);
    if x in b && x != End(b, a) {
      assert Local(b, x) && b[x].prev != a;
    }
  }

  lemma AllocPairs(b: Blocks, a: nat, n: nat, x: nat)
    requires Ok(b) && Coalesced(b) && a in b && b[a].free && MIN_WORDS <= n <= b[a].words
    requires x in Alloc(b, a, n)
    ensures !Pair(Alloc(b, a, n), x)
  {
    hide PrevAgrees, Disjoint;
    CutFacts(b, a, n);
    assert !Pair(b, a);
    if x in b {
      assert Local(b, x) && !Pair(b, x);
    }
  }

  lemma AllocKeepsOk(b: Blocks, a: nat, n: nat)
    requires Ok(b) && Coalesced(b) && a in b && b[a].free && MIN_WORDS <= n <= b[a].words
    ensures Ok(Alloc(b, a, n)) && Coalesced(Alloc(b, a, n))
  {
    hide Local, Pair;
    CutFacts(b, a, n);
    CutDisjoint(b, a, n);
    var r := Alloc(b, a, n);
    forall x | x in r
      ensures Local(r, x) && !Pair(r, x)
    {
      AllocLocal(b, a, n, x);
      AllocPairs(b, a, n, x);
    }
  }

  /** Allocation adds one live payload, large enough and carved from a free block, and keeps all others. */
  lemma AllocLive(b: Blocks, a: nat, n: nat, p: nat, words: nat)
    requires Ok(b) && a in b && b[a].free && MIN_WORDS <= n <= b[a].words
    ensures var r := Alloc(b, a, n);
      && a in r && n <= r[a].words < n + OVERHEAD + MIN_WORDS && !IsLive(b, a + OVERHEAD, b[a].words)
      && (IsLive(r, p, words) <==> IsLive(b, p, words) || (p == a + OVERHEAD && words == r[a].words))
  {
    CutFacts(b, a, n);
  }

  // ---- Coalescing

  /** Block a and its successor as one block. */
  function Join(b: Blocks, a: nat): Blocks
    requires a in b && End(b, a) in b && End(b, End(b, a)) in b
  {
    var e := End(b, a);
    var r := (b - {e})[a := b[a].(words := b[a].words + OVERHEAD + b[e].words)];
    r[End(b, e) := b[End(b, e)].(prev := a)]
  }

  ghost predicate Joinable(b: Blocks, a: nat)
    requires a in b
  {
    && End(b, a) in b && b[a].free && b[End(b, a)].free && a < End(b, a) < End(b, End(b, a))
    && End(b, End(b, a)) in b && !IsLast(b, a) && !IsLast(b, End(b, a)) && a != b[a].pool.lo
  }

  lemma FreeNeighboursJoin(b: Blocks, a: nat)
    requires Ok(b) && a in b && Pair(b, a)
    ensures Joinable(b, a)
  {
    assert Local(b, a) && Local(b, End(b, a));
  }

  lemma JoinKeepsOk(b: Blocks, a: nat)
    requires Ok(b) && a in b && Pair(b, a)
    ensures Joinable(b, a) && Ok(Join(b, a))
  {
    FreeNeighboursJoin(b, a);
    var r, e := Join(b, a), End(b, a);
    assert Disjoint(r) by {
      hide Local;
      forall x, y | x in r && y in r && x < y
        ensures End(r, x) <= y
      {
        assert End(b, x) <= y;
        assert x == a ==> e < y && End(b, e) <= y;
      }
    }
    forall x | x in r
      ensures Local(r, x)
    {
      JoinLocal(b, a, x);
    }
  }

  lemma JoinLocal(b: Blocks, a: nat, x: nat)
    requires Ok(b) && a in b && Pair(b, a) && Joinable(b, a) && x in Join(b, a)
    ensures Local(Join(b, a), x)
  {
    hide Pair, Disjoint, Local, Join, InPool, NextAgrees, PrevAgrees;
    var r := Join(b, a);
    JoinInPool(b, a, x);
    if !IsLast(r, x) {
      JoinNext(b, a, x);
    }
    if x != r[x].pool.lo {
      JoinPrev(b, a, x);
    }
    LocalIs(r, x);
  }

  lemma JoinInPool(b: Blocks, a: nat, x: nat)
    requires Ok(b) && a in b && Pair(b, a) && Joinable(b, a) && x in Join(b, a)
    ensures InPool(Join(b, a), x)
  {
    hide PrevAgrees, Disjoint;
    assert Local(b, a) && Local(b, End(b, a)) && Local(b, x);
  }

  lemma JoinNext(b: Blocks, a: nat, x: nat)
    requires Ok(b) && a in b && Pair(b, a) && Joinable(b, a) && x in Join(b, a) && !IsLast(Join(b, a), x)
    ensures NextAgrees(Join(b, a), x)
  {
    hide InPool, Disjoint;
    var e := End(b, a);
    assert Local(b, a) && Local(b, e);
    if x != a {
      assert Local(b, x);
    }
  }

  lemma JoinPrev(b: Blocks, a: nat, x: nat)
    requires Ok(b) && a in b && Pair(b, a) && Joinable(b, a) && x in Join(b, a) && x != Join(b, a)[x].pool.lo
    ensures PrevAgrees(Join(b, a), x)
  {
    hide InPool, Disjoint;
    var e := End(b, a);
    assert Local(b, a) && Local(b, e);
    if x != End(b, e) {
      assert Local(b, x);
    }
  }

  /** Joining creates no new pair of free neighbours. */
  lemma JoinPairs(b: Blocks, a: nat, x: nat)
    requires Ok(b) && a in b && Pair(b, a) && x in b && x != End(b, a)
    ensures Joinable(b, a) && x in Join(b, a)
    ensures Pair(Join(b, a), x) ==> Pair(b, if x == a then End(b, a) else x)
  {
    assert Local(b, a) && Local(b, End(b, a)) && Local(b, x);
  }

  lemma JoinLive(b: Blocks, a: nat, p: nat, words: nat)
    requires Ok(b) && a in b && Pair(b, a)
    ensures Joinable(b, a)
    ensures IsLive(Join(b, a), p, words) <==> IsLive(b, p, words)
  {
    assert Local(b, a) && Local(b, End(b, a)) && Local(b, End(b, End(b, a)));
  }

  // ---- Freeing

  /** Block a marked free, and its successor told so. */
  function Marked(b: Blocks, a: nat): Blocks
    requires a in b && End(b, a) in b
  {
    b[a := b[a].(free := true)][End(b, a) := b[End(b, a)].(prevFree := true)]
  }

  /** merge_next. */
  function MergedNext(b: Blocks, a: nat): Blocks
    requires Ok(b) && a in b && b[a].free
  {
    if End(b, a) in b && b[End(b, a)].free then
      FreeNeighboursJoin(b, a);
      Join(b, a)
    else b
  }

  /** merge_prev, and where the block it returns stands. */
  function MergedPrev(b: Blocks, a: nat): Blocks
    requires Ok(b) && a in b && b[a].free
  {
    if b[a].prevFree then
      PrevIsFree(b, a);
      FreeNeighboursJoin(b, b[a].prev);
      Join(b, b[a].prev)
    else b
  }

  function Start(b: Blocks, a: nat): nat
    requires a in b
  {
    if b[a].prevFree then b[a].prev else a
  }

  lemma PrevIsFree(b: Blocks, a: nat)
    requires Ok(b) && a in b && b[a].free && b[a].prevFree
    ensures b[a].prev in b && End(b, b[a].prev) == a && Pair(b, b[a].prev)
  {
    assert Local(b, a) && Local(b, b[a].prev);
  }

  ghost predicate CanFree(b: Blocks, a: nat) {
    a in b && !b[a].free && b[a].words > 0
  }

  lemma MarkedKeepsOk(b: Blocks, a: nat)
    requires Ok(b) && CanFree(b, a)
    ensures End(b, a) in b && a != End(b, a) && Ok(Marked(b, a)) && a in Marked(b, a) && Marked(b, a)[a].free
  {
    assert Local(b, a);
    var r := Marked(b, a);
    assert Disjoint(r) by {
      hide Local;
      forall x, y | x in r && y in r && x < y
        ensures End(r, x) <= y
      {
        assert End(b, x) <= y;
      }
    }
    forall x | x in r
      ensures Local(r, x)
    {
      MarkedLocal(b, a, x);
    }
  }

  lemma MarkedLocal(b: Blocks, a: nat, x: nat)
    requires Ok(b) && CanFree(b, a) && End(b, a) in b && a != End(b, a) && x in b
    ensures Local(Marked(b, a), x)
  {
    hide InPool, NextAgrees, PrevAgrees, Marked, Disjoint;
    assert Local(b, x);
    MarkedInPool(b, a, x);
    MarkedNeighbours(b, a, x);
  }

  lemma MarkedInPool(b: Blocks, a: nat, x: nat)
    requires CanFree(b, a) && Local(b, a) && End(b, a) in b && a != End(b, a) && x in b && Local(b, x)
    ensures InPool(Marked(b, a), x) && Marked(b, a)[x].pool == b[x].pool && End(Marked(b, a), x) == End(b, x)
  {
    hide PrevAgrees;
  }

  lemma MarkedNeighbours(b: Blocks, a: nat, x: nat)
    requires CanFree(b, a) && Local(b, a) && End(b, a) in b && a != End(b, a) && x in b && Local(b, x)
    ensures !IsLast(b, x) ==> NextAgrees(Marked(b, a), x)
    ensures x != b[x].pool.lo ==> PrevAgrees(Marked(b, a), x)
  {
    var r, e := Marked(b, a), End(b, a);
    assert !IsLast(b, a) by {
      hide NextAgrees, PrevAgrees;
    }
    hide InPool;
    assert PrevAgrees(b, x) ==> PrevAgrees(r, x) by {
      hide NextAgrees;
    }
    hide PrevAgrees;
  }

  lemma MergedNextFacts(b: Blocks, a: nat)
    requires Ok(b) && a in b && b[a].free
    ensures var r := MergedNext(b, a);
      Ok(r) && r.Keys <= b.Keys && a in r && r[a].free && r[a].prevFree == b[a].prevFree && r[a].prev == b[a].prev
  {
    assert Local(b, a);
    if Pair(b, a) {
      JoinKeepsOk(b, a);
    }
  }

  lemma MergedPrevFacts(b: Blocks, a: nat)
    requires Ok(b) && a in b && b[a].free
    ensures var r := MergedPrev(b, a);
      Ok(r) && Start(b, a) in r && r[Start(b, a)].free
  {
    if b[a].prevFree {
      PrevIsFree(b, a);
      JoinKeepsOk(b, b[a].prev);
    }
  }

  /** The state after block a has been freed. */
  function Freed(b: Blocks, a: nat): Blocks
    requires Ok(b) && CanFree(b, a)
  {
    MarkedKeepsOk(b, a);
    MergedNextFacts(Marked(b, a), a);
    MergedPrev(MergedNext(Marked(b, a), a), a)
  }

  lemma FreedKeepsOk(b: Blocks, a: nat)
    requires Ok(b) && Coalesced(b) && CanFree(b, a)
    ensures Ok(Freed(b, a)) && Coalesced(Freed(b, a))
  {
    hide Local, Disjoint;
    MarkedKeepsOk(b, a);
    var m := Marked(b, a);
    MergedNextFacts(m, a);
    var c := MergedNext(m, a);
    MergedPrevFacts(c, a);
    var r := Freed(b, a);
    forall x | x in r
      ensures !Pair(r, x)
    {
      FreedHasNoPair(b, a, x);
    }
  }

  lemma MarkedPairs(b: Blocks, a: nat, x: nat)
    requires Ok(b) && Coalesced(b) && CanFree(b, a) && x in b
    ensures End(b, a) in b && Pair(Marked(b, a), x) ==> x == a || End(b, x) == a
  {
    assert Local(b, a) && !Pair(b, x);
  }

  lemma NextPairs(b: Blocks, a: nat, x: nat)
    requires Ok(b) && Coalesced(b) && CanFree(b, a) && End(b, a) in b && Ok(Marked(b, a))
    requires x in MergedNext(Marked(b, a), a)
    ensures var c := MergedNext(Marked(b, a), a);
      Pair(c, x) ==> x != a && End(c, x) == a
  {
    hide Disjoint, PrevAgrees;
    var m := Marked(b, a);
    MarkedKeepsOk(b, a);
    MergedNextFacts(m, a);
    assert Local(m, a) && Local(m, x);
    MarkedPairs(b, a, x);
    if Pair(m, a) {
      JoinPairs(m, a, x);
      MarkedPairs(b, a, End(b, a));
    }
  }

  lemma FreedHasNoPair(b: Blocks, a: nat, x: nat)
    requires Ok(b) && Coalesced(b) && CanFree(b, a) && x in Freed(b, a)
    ensures !Pair(Freed(b, a), x)
  {
    MarkedKeepsOk(b, a);
    var m := Marked(b, a);
    MergedNextFacts(m, a);
    var c := MergedNext(m, a);
    assert Local(c, a);
    if c[a].prevFree {
      PrevIsFree(c, a);
      JoinPairs(c, c[a].prev, x);
      NextPairs(b, a, x);
      NextPairs(b, a, a);
    } else {
      NextPairs(b, a, x);
      assert Local(c, x);
    }
  }

  /** Freeing a live payload removes just that one. */
  lemma FreedLive(b: Blocks, a: nat, p: nat, words: nat)
    requires Ok(b) && CanFree(b, a)
    ensures IsLive(Freed(b, a), p, words) <==> IsLive(b, p, words) && p != a + OVERHEAD
  {
    MarkedKeepsOk(b, a);
    var m := Marked(b, a);
    assert Local(b, a);
    MergedNextFacts(m, a);
    var c := MergedNext(m, a);
    if Pair(m, a) {
      JoinLive(m, a, p, words);
    }
    if c[a].prevFree {
      PrevIsFree(c, a);
      JoinLive(c, c[a].prev, p, words);
    }
  }

  // ---- New pools

  function WithPool(b: Blocks, pool: Pool): Blocks
    requires pool.lo + 10 <= pool.hi
  {
    b[pool.lo := Block(0, 0, false, false, pool)]
     [pool.lo + 2 := Block(pool.lo, pool.hi - pool.lo - 6, true, false, pool)]
     [pool.hi - 2 := Block(pool.lo + 2, 0, false, true, pool)]
  }

  /** The pool overlaps no pool that is in use. */
  ghost predicate Fresh(b: Blocks, pool: Pool) {
    forall a :: a in b ==> b[a].pool.hi <= pool.lo || pool.hi <= b[a].pool.lo
  }

  lemma WithPoolKeepsOk(b: Blocks, pool: Pool)
    requires Ok(b) && Coalesced(b) && Fresh(b, pool) && 0 < pool.lo && pool.lo + 10 <= pool.hi < pool.lo + 6 + POOL_LIMIT
    ensures Ok(WithPool(b, pool)) && Coalesced(WithPool(b, pool))
    ensures forall a :: a in b ==> a in WithPool(b, pool) && WithPool(b, pool)[a] == b[a]
    ensures forall p, words :: IsLive(WithPool(b, pool), p, words) <==> IsLive(b, p, words)
  {
    hide Local, Pair, Disjoint;
    var r := WithPool(b, pool);
    forall a | a in b
      ensures End(b, a) <= pool.lo || pool.hi <= a
    {
      assert Local(b, a);
      LocalIs(b, a);
    }
    WithPoolDisjoint(b, pool);
    forall a | a in r
      ensures Local(r, a) && !Pair(r, a)
    {
      WithPoolLocal(b, pool, a);
    }
  }

  lemma WithPoolDisjoint(b: Blocks, pool: Pool)
    requires Disjoint(b) && pool.lo + 10 <= pool.hi
    requires forall a :: a in b ==> End(b, a) <= pool.lo || pool.hi <= a
    ensures Disjoint(WithPool(b, pool))
  {
    var r := WithPool(b, pool);
    forall x, y | x in r && y in r && x < y
      ensures End(r, x) <= y
    {
      if x in b && y in b {
        assert End(b, x) <= y;
      }
    }
  }

  lemma WithPoolLocal(b: Blocks, pool: Pool, a: nat)
    requires Ok(b) && Coalesced(b) && Fresh(b, pool) && 0 < pool.lo && pool.lo + 10 <= pool.hi < pool.lo + 6 + POOL_LIMIT
    requires forall a :: a in b ==> End(b, a) <= pool.lo || pool.hi <= a
    requires a in WithPool(b, pool)
    ensures Local(WithPool(b, pool), a) && !Pair(WithPool(b, pool), a)
  {
    if a in b {
      assert Local(b, a) && !Pair(b, a);
    }
  }
}
