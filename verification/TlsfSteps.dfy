// The steps of the two-level segregated fit allocator on the words of the heap, each shown to
// carry the words standing for one state of blocks and lists to the words standing for the next.
module TlsfSteps {
  import opened TlsfClasses
  import opened TlsfBlocks
  import opened TlsfLists

  // ---- Any step that only rewrites headers

  /** The blocks that belong in a list, and their sizes, are the same. */
  ghost predicate SameFree(b: Blocks, out: set<nat>, b': Blocks, out': set<nat>) {
    forall x :: Awaits(b, x, out) <==> Awaits(b', x, out') && (Awaits(b, x, out) ==> b'[x].words == b[x].words)
  }

  ghost predicate Awaits(b: Blocks, x: nat, out: set<nat>) {
    x in b && b[x].free && x !in out
  }

  lemma FiledFrame(b: Blocks, lists: Lists, out: set<nat>, b': Blocks, out': set<nat>)
    requires Filed(b, lists, out) && SameFree(b, out, b', out')
    ensures Filed(b', lists, out')
  {
    hide ListOf;
    forall c, i | 0 <= c < CLASS_COUNT && 0 <= i < |lists.of[c]|
      ensures Member(b', lists.of[c][i], c, out')
    {
      assert Member(b, lists.of[c][i], c, out) && Awaits(b, lists.of[c][i], out);
    }
    forall x | x in b' && b'[x].free && x !in out'
      ensures Listed(b', x, lists)
    {
      assert Awaits(b', x, out') && Listed(b, x, lists);
    }
  }

  /** Words other than headers of b' keep their values, so lists and live payloads carry over. */
  lemma HeaderStep(v: Words, mem: seq<nat>, nul: nat, lists: Lists, b: Blocks, out: set<nat>, b': Blocks, out': set<nat>)
    requires Represents(v, nul, b, lists, out) && |mem| == |v.mem|
    requires Shape(b', |mem|, nul) && Spells(mem, b') && SameFree(b, out, b', out')
    requires forall w :: 0 <= w < |mem| && mem[w] != v.mem[w] ==> IsHeader(b', w)
    ensures Represents(v.(mem := mem), nul, b', lists, out') && Undisturbed(b', v.mem, mem)
  {
    hide Shape, Spells, SameFree, Filed, Linked, BitsOk, IsHeader, Undisturbed;
    FiledFrame(b, lists, out, b', out');
    HeadersMayChange(v, mem, nul, b', lists, out');
  }

  lemma Narrowed(b: Blocks, b': Blocks, mem: seq<nat>, mem': seq<nat>)
    requires Undisturbed(b', mem, mem')
    requires forall p: nat, words: nat :: IsLive(b, p, words) ==> IsLive(b', p, words)
    ensures Undisturbed(b, mem, mem')
  {
    hide IsLive, Kept;
  }

  lemma UndisturbedTwice(b: Blocks, b': Blocks, m0: seq<nat>, m1: seq<nat>, m2: seq<nat>)
    requires Undisturbed(b, m0, m1) && Undisturbed(b', m1, m2)
    requires forall p: nat, words: nat :: IsLive(b', p, words) ==> IsLive(b, p, words)
    ensures Undisturbed(b', m0, m2)
  {
    hide IsLive;
    forall p: nat, words: nat | IsLive(b', p, words)
      ensures Kept(p, words, m0, m2)
    {
      assert Kept(p, words, m0, m1) && Kept(p, words, m1, m2);
    }
  }

  lemma HeadersApart(b: Blocks, x: nat, y: nat)
    requires Disjoint(b) && x in b && y in b && x != y
    ensures x + 2 <= y || y + 2 <= x
  {
  }

  // ---- What the allocator reads

  lemma ReadHeader(v: Words, nul: nat, lists: Lists, b: Blocks, out: set<nat>, a: nat)
    requires Represents(v, nul, b, lists, out) && a in b
    ensures a + 1 < |v.mem| && End(b, a) <= |v.mem| && v.mem[a] == b[a].prev && v.mem[a + 1] == Flags(b[a])
    ensures SizeOf(v.mem[a + 1]) == 4 * b[a].words
    ensures (v.mem[a + 1] % 2 == 1 <==> b[a].free) && (v.mem[a + 1] / 2 % 2 == 1 <==> b[a].prevFree)
    ensures |v.heads| == CLASS_COUNT && |v.sl| == FL_INDEX_COUNT
  {
    FlagBits(b[a]);
    assert Header(v.mem, b, a) && Placed(b, a, |v.mem|, nul);
  }

  lemma ListIs(words: nat)
    requires MIN_WORDS <= words < POOL_LIMIT
    ensures var (fl, sl) := MapInsert(4 * words);
      fl < FL_INDEX_COUNT && sl < SL_CLASS_COUNT && 16 * fl + sl == ListOf(words) && ListOf(words) / 16 == fl && ListOf(words) % 16 == sl
  {
    ClassInTable(4 * words);
  }

  /** Where a free block stands in the list of its class. */
  lemma FindListed(v: Words, nul: nat, lists: Lists, b: Blocks, out: set<nat>, x: nat) returns (i: nat)
    requires Represents(v, nul, b, lists, out) && x in b && b[x].free && x !in out
    ensures MIN_WORDS <= b[x].words < POOL_LIMIT && |lists.of| == CLASS_COUNT
    ensures var l := lists.of[ListOf(b[x].words)]; i < |l| && l[i] == x
  {
    assert Listed(b, x, lists);
    var l := lists.of[ListOf(b[x].words)];
    i :| 0 <= i < |l| && l[i] == x;
  }

  /** fl_remove does not overwrite the links of the block it removes. */
  lemma OwnLinksStay(v: Words, nul: nat, lists: Lists, b: Blocks, out: set<nat>, c: nat, i: nat)
    requires Represents(v, nul, b, lists, out) && c < CLASS_COUNT && |lists.of| == CLASS_COUNT && i < |lists.of[c]|
    ensures var x := lists.of[c][i];
      && x + 3 < |v.mem|
      && (x + 4 <= v.mem[x + 2] || v.mem[x + 2] + 4 <= x) && (x + 4 <= v.mem[x + 3] || v.mem[x + 3] + 4 <= x)
  {
    hide Represents;
    NeighboursAre(v, nul, b, lists, out, c, i);
    NeighbourOf(v, nul, b, lists, out, c, i, c, i, i + 1);
    NeighbourOf(v, nul, b, lists, out, c, i, c, i, i - 1);
  }

  /** What the search has found, in terms of the free blocks there are. */
  lemma FoundFits(v: Words, nul: nat, lists: Lists, b: Blocks, n: nat, a: nat)
    requires Represents(v, nul, b, lists, {}) && TLSF_BLOCK_MIN <= n <= 0x100_0000 && Found(lists, Number(MapSearch(n)), a)
    ensures a != nul && (a == 0 <==> forall x :: !Reaches(b, n, x)) && (a != 0 ==> GoodFit(b, n, a))
  {
    hide ListOf, Spells, Linked, BitsOk, SearchSize, MapSearch, ClassOf;
    var start := Number(MapSearch(n));
    forall x | Reaches(b, n, x)
      ensures Listed(b, x, lists) && start <= ListOf(b[x].words) == ClassOf(4 * b[x].words)
    {
      assert Awaits(b, x, {}) && Listed(b, x, lists);
      SearchIff(n, 4 * b[x].words);
      ListIsClass(b[x].words);
    }
    if !EmptyFrom(lists, start, |lists.of|) {
      var c: nat :| FirstNonEmpty(lists, start, c) && a == lists.of[c][0];
      assert Member(b, lists.of[c][0], c, {});
      assert Placed(b, a, |v.mem|, nul);
      ListIsClass(b[a].words);
      SearchIff(n, 4 * b[a].words);
      SearchSizeIsGoodFit(n);
      assert Reaches(b, n, a);
    }
  }

  lemma ListIsClass(words: nat)
    requires MIN_WORDS <= words < POOL_LIMIT
    ensures ListOf(words) == ClassOf(4 * words)
  {
  }

  /** nullptr iff all lists from class start on are empty, the head of the first that is not otherwise. */
  ghost predicate Found(lists: Lists, start: nat, b: nat) {
    if EmptyFrom(lists, start, |lists.of|) then b == 0
    else exists c: nat :: FirstNonEmpty(lists, start, c) && b == lists.of[c][0]
  }

  /** A free block that reaches the rounded-up request, of the lowest class that does. */
  ghost predicate GoodFit(b: Blocks, n: nat, a: nat)
    requires n >= TLSF_BLOCK_MIN
  {
    && Reaches(b, n, a) && n <= 4 * b[a].words
    && forall x :: Reaches(b, n, x) ==> ClassOf(4 * b[a].words) <= ClassOf(4 * b[x].words)
  }

  ghost predicate Reaches(b: Blocks, n: nat, x: nat)
    requires n >= TLSF_BLOCK_MIN
  {
    x in b && b[x].free && MIN_WORDS <= b[x].words && SearchSize(n) <= 4 * b[x].words
  }

  // ---- The search

  /** The first list that is not empty, from class start on. */
  ghost predicate FirstNonEmpty(lists: Lists, start: nat, c: nat) {
    && start <= c < |lists.of| && lists.of[c] != []
    && forall d :: start <= d < c ==> lists.of[d] == []
  }

  ghost predicate EmptyFrom(lists: Lists, start: nat, end: nat) {
    forall d :: start <= d < end && d < |lists.of| ==> lists.of[d] == []
  }

  /** A bitmap word with the bits below k masked out. */
  function From(s: set<nat>, k: nat): set<nat> {
    set x | x in s && x >= k
  }

  /** The lowest bit set. */
  function Bsf(s: set<nat>): (r: nat)
    requires s != {} && forall x :: x in s ==> x < 32
    ensures r in s && forall x :: x in s ==> r <= x
  {
    assert exists x :: x in s;
    LowestFrom(s, 0)
  }

  function LowestFrom(s: set<nat>, k: nat): (r: nat)
    requires exists x :: x in s && k <= x < 32
    ensures r in s && k <= r < 32 && forall x :: x in s && k <= x ==> r <= x
    decreases 32 - k
  {
    if k in s then k else LowestFrom(s, k + 1)
  }

  lemma RowBit(v: Words, lists: Lists, f: nat, d: nat)
    requires BitsOk(v.fl, v.sl, lists) && f < FL_INDEX_COUNT && 16 * f <= d < 16 * f + 16
    ensures |v.sl| == FL_INDEX_COUNT && |lists.of| == CLASS_COUNT
    ensures d - 16 * f in v.sl[f] <==> lists.of[d] != []
    ensures forall x :: x in v.sl[f] ==> x < SL_CLASS_COUNT
  {
    assert d / 16 == f && d % 16 == d - 16 * f;
    assert d % 16 in v.sl[d / 16] <==> lists.of[d] != [];
  }

  lemma RowSearch(v: Words, lists: Lists, f: nat, s: nat)
    requires BitsOk(v.fl, v.sl, lists) && f < FL_INDEX_COUNT && s <= SL_CLASS_COUNT
    ensures |v.sl| == FL_INDEX_COUNT
    ensures var m := From(v.sl[f], s);
      && (forall x :: x in m ==> x < SL_CLASS_COUNT)
      && if m == {} then EmptyFrom(lists, 16 * f + s, 16 * f + 16) else FirstNonEmpty(lists, 16 * f + s, 16 * f + Bsf(m))
  {
    hide BitsOk;
    RowBit(v, lists, f, 16 * f);
    var m := From(v.sl[f], s);
    if m != {} {
      RowBit(v, lists, f, 16 * f + Bsf(m));
    }
    forall d | 16 * f + s <= d < 16 * f + 16 && (m != {} ==> d < 16 * f + Bsf(m))
      ensures lists.of[d] == []
    {
      RowBit(v, lists, f, d);
      assert d - 16 * f !in m;
    }
  }

  lemma TableSearch(v: Words, lists: Lists, f: nat)
    requires BitsOk(v.fl, v.sl, lists) && f <= FL_INDEX_COUNT
    ensures var m := From(v.fl, f);
      && (forall x :: x in m ==> x < FL_INDEX_COUNT)
      && if m == {} then EmptyFrom(lists, 16 * f, CLASS_COUNT)
         else v.sl[Bsf(m)] != {} && EmptyFrom(lists, 16 * f, 16 * Bsf(m))
  {
    var m := From(v.fl, f);
    forall d | 16 * f <= d < CLASS_COUNT && (m != {} ==> d < 16 * Bsf(m))
      ensures lists.of[d] == []
    {
      assert d / 16 !in m && v.sl[d / 16] == {};
    }
  }

  // ---- Allocation

  /** blk_split: the tail's header, its successor's prev_phys, and the size of a. */
  function CutWords(mem: seq<nat>, b: Blocks, a: nat, n: nat): (r: seq<nat>)
    requires a in b && End(b, a) < |mem| && n <= b[a].words
    ensures |r| == |mem|
  {
    if Splits(b, a, n) then
      var t := a + OVERHEAD + n;
      mem[t + 1 := 4 * (b[a].words - n - OVERHEAD) + 1][t := a][End(b, a) := t][a + 1 := Flags(b[a].(words := n))]
    else mem
  }

  lemma CutShape(b: Blocks, a: nat, n: nat, size: nat, nul: nat)
    requires Ok(b) && Shape(b, size, nul) && a in b && b[a].free && MIN_WORDS <= n <= b[a].words && End(b, a) in b
    ensures Shape(Cut(b, a, n), size, nul)
  {
    CutFacts(b, a, n);
    CutDisjoint(b, a, n);
    hide Disjoint, Local;
    forall x | x in Cut(b, a, n)
      ensures Placed(Cut(b, a, n), x, size, nul)
    {
      assert Placed(b, a, size, nul);
      assert x in b ==> Placed(b, x, size, nul);
    }
  }

  lemma CutSpells(mem: seq<nat>, b: Blocks, a: nat, n: nat, nul: nat)
    requires Ok(b) && Shape(b, |mem|, nul) && Spells(mem, b)
    requires a in b && b[a].free && MIN_WORDS <= n <= b[a].words && Splits(b, a, n) && End(b, a) in b && End(b, a) < |mem|
    ensures var m, c := CutWords(mem, b, a, n), Cut(b, a, n);
      Spells(m, c) && forall w :: 0 <= w < |mem| && m[w] != mem[w] ==> IsHeader(c, w)
  {
    hide Local, Disjoint, Ok, Shape;
    CutFacts(b, a, n);
    CutDisjoint(b, a, n);
    CutBounds(mem, b, a, n, nul);
    var m, c, t, e := CutWords(mem, b, a, n), Cut(b, a, n), a + OVERHEAD + n, End(b, a);
    forall x | x in c
      ensures Header(m, c, x)
    {
      assert x in b ==> Header(mem, b, x);
      if x != t {
        HeadersApart(c, x, t);
      }
      if x != a {
        HeadersApart(c, x, a);
      }
      if x != e {
        HeadersApart(c, x, e);
      }
    }
  }

  lemma CutBounds(mem: seq<nat>, b: Blocks, a: nat, n: nat, nul: nat)
    requires Shape(b, |mem|, nul) && Spells(mem, b) && a in b && n <= b[a].words && Splits(b, a, n) && End(b, a) in b && End(b, a) < |mem|
    ensures a + OVERHEAD + n + 2 <= End(b, a) && End(b, a) + 1 < |mem|
    ensures Flags(Block(a, b[a].words - n - OVERHEAD, true, false, b[a].pool)) == 4 * (b[a].words - n - OVERHEAD) + 1
  {
    assert Header(mem, b, a) && Header(mem, b, End(b, a));
  }

  lemma CutLive(b: Blocks, a: nat, n: nat)
    requires Ok(b) && a in b && b[a].free && MIN_WORDS <= n <= b[a].words && End(b, a) in b
    ensures forall p: nat, words: nat :: IsLive(Cut(b, a, n), p, words) <==> IsLive(b, p, words)
  {
    CutFacts(b, a, n);
  }

  /** The free blocks set aside after blk_split of block a. */
  function CutOut(b: Blocks, a: nat, n: nat): set<nat>
    requires a in b
  {
    if Splits(b, a, n) then {a, a + OVERHEAD + n} else {a}
  }

  lemma CutRepresents(v: Words, nul: nat, lists: Lists, b: Blocks, a: nat, n: nat)
    requires Represents(v, nul, b, lists, {a}) && Ok(b) && a in b && b[a].free && MIN_WORDS <= n <= b[a].words
    ensures End(b, a) in b && End(b, a) + 1 < |v.mem|
    ensures var m, c := CutWords(v.mem, b, a, n), Cut(b, a, n);
      Represents(v.(mem := m), nul, c, lists, CutOut(b, a, n)) && Undisturbed(b, v.mem, m)
  {
    hide Represents, Undisturbed, Shape, Spells, Local, Disjoint, IsLive, IsHeader, SameFree;
    CutFacts(b, a, n);
    Unfold(v, nul, lists, b, {a});
    HeaderIs(v.mem, b, End(b, a));
    if Splits(b, a, n) {
      CutShape(b, a, n, |v.mem|, nul);
      CutSpells(v.mem, b, a, n, nul);
      CutFree(b, a, n);
      HeaderStep(v, CutWords(v.mem, b, a, n), nul, lists, b, {a}, Cut(b, a, n), CutOut(b, a, n));
      CutLive(b, a, n);
      SameLive(b, Cut(b, a, n), v.mem, CutWords(v.mem, b, a, n));
    } else {
      NothingDisturbed(b, v.mem, nul);
    }
  }

  lemma CutFree(b: Blocks, a: nat, n: nat)
    requires Ok(b) && a in b && b[a].free && MIN_WORDS <= n <= b[a].words && End(b, a) in b
    ensures SameFree(b, {a}, Cut(b, a, n), CutOut(b, a, n))
  {
    CutFacts(b, a, n);
  }

  lemma HeaderIs(mem: seq<nat>, b: Blocks, a: nat)
    requires Spells(mem, b) && a in b
    ensures Header(mem, b, a)
  {
  }

  lemma Unfold(v: Words, nul: nat, lists: Lists, b: Blocks, out: set<nat>)
    requires Represents(v, nul, b, lists, out)
    ensures Shape(b, |v.mem|, nul) && Spells(v.mem, b)
  {
  }

  lemma NothingDisturbed(b: Blocks, mem: seq<nat>, nul: nat)
    requires Shape(b, |mem|, nul)
    ensures Undisturbed(b, mem, mem)
  {
    forall p: nat, words: nat | IsLive(b, p, words)
      ensures Kept(p, words, mem, mem)
    {
      assert Placed(b, p - OVERHEAD, |mem|, nul);
    }
  }

  lemma SameLive(b: Blocks, b': Blocks, mem: seq<nat>, mem': seq<nat>)
    requires forall p: nat, words: nat :: IsLive(b', p, words) <==> IsLive(b, p, words)
    ensures Undisturbed(b, mem, mem') <==> Undisturbed(b', mem, mem')
  {
    hide IsLive, Kept;
  }

  /** Clearing F_FREE of a and PREV_FREE of its successor. */
  function UsedWords(mem: seq<nat>, b: Blocks, a: nat): (r: seq<nat>)
    requires a in b && End(b, a) in b && End(b, a) + 1 < |mem|
    ensures |r| == |mem|
  {
    mem[a + 1 := Flags(b[a].(free := false))][End(b, a) + 1 := Flags(b[End(b, a)].(prevFree := false))]
  }

  /** Setting F_FREE of a and PREV_FREE of its successor. */
  function MarkedWords(mem: seq<nat>, b: Blocks, a: nat): (r: seq<nat>)
    requires a in b && End(b, a) in b && End(b, a) + 1 < |mem|
    ensures |r| == |mem|
  {
    mem[a + 1 := Flags(b[a].(free := true))][End(b, a) + 1 := Flags(b[End(b, a)].(prevFree := true))]
  }

  /** Rewriting the flags of two blocks whose places and sizes stay. */
  lemma FlagStep(v: Words, nul: nat, lists: Lists, b: Blocks, out: set<nat>, b': Blocks, out': set<nat>, a: nat, e: nat)
    requires Represents(v, nul, b, lists, out) && a in b && e in b && a != e && e + 1 < |v.mem|
    requires b'.Keys == b.Keys && (forall x :: x in b && x != a && x != e ==> b'[x] == b[x])
    requires forall x :: x in {a, e} ==> b'[x].words == b[x].words && b'[x].prev == b[x].prev
    requires b'[a].free ==> MIN_WORDS <= b[a].words < POOL_LIMIT
    requires b'[e].free == b[e].free && SameFree(b, out, b', out')
    ensures a + 1 < |v.mem|
    ensures var m := v.mem[a + 1 := Flags(b'[a])][e + 1 := Flags(b'[e])];
      Represents(v.(mem := m), nul, b', lists, out') && Undisturbed(b', v.mem, m)
  {
    hide Represents, SameFree, Shape, Spells, Undisturbed;
    Unfold(v, nul, lists, b, out);
    FlagShape(b, b', |v.mem|, nul, a, e);
    FlagSpells(v.mem, b, b', nul, a, e);
    HeaderStep(v, v.mem[a + 1 := Flags(b'[a])][e + 1 := Flags(b'[e])], nul, lists, b, out, b', out');
  }

  lemma FlagShape(b: Blocks, b': Blocks, size: nat, nul: nat, a: nat, e: nat)
    requires Shape(b, size, nul) && a in b && e in b && b'.Keys == b.Keys
    requires forall x :: x in b && x != a && x != e ==> b'[x] == b[x]
    requires forall x :: x in {a, e} ==> b'[x].words == b[x].words
    requires b'[a].free ==> MIN_WORDS <= b[a].words < POOL_LIMIT
    requires b'[e].free == b[e].free
    ensures Shape(b', size, nul)
  {
    assert forall x :: x in b ==> End(b', x) == End(b, x);
    forall x | x in b'
      ensures Placed(b', x, size, nul)
    {
      assert Placed(b, x, size, nul);
    }
  }

  lemma FlagSpells(mem: seq<nat>, b: Blocks, b': Blocks, nul: nat, a: nat, e: nat)
    requires Shape(b, |mem|, nul) && Spells(mem, b) && a in b && e in b && a != e && e + 1 < |mem| && b'.Keys == b.Keys
    requires forall x :: x in b && x != a && x != e ==> b'[x] == b[x]
    requires forall x :: x in {a, e} ==> b'[x].words == b[x].words && b'[x].prev == b[x].prev
    ensures a + 1 < |mem|
    ensures var m := mem[a + 1 := Flags(b'[a])][e + 1 := Flags(b'[e])];
      Spells(m, b') && forall w :: 0 <= w < |mem| && m[w] != mem[w] ==> IsHeader(b', w)
  {
    hide Flags;
    assert Header(mem, b, a) && Header(mem, b, e);
    var m := mem[a + 1 := Flags(b'[a])][e + 1 := Flags(b'[e])];
    forall x | x in b'
      ensures Header(m, b', x)
    {
      assert Header(mem, b, x);
      if x != a {
        HeadersApart(b, x, a);
      }
      if x != e {
        HeadersApart(b, x, e);
      }
    }
  }

  lemma UsedRepresents(v: Words, nul: nat, lists: Lists, b: Blocks, a: nat)
    requires Represents(v, nul, b, lists, {a}) && a in b && b[a].free && End(b, a) in b && a != End(b, a)
    ensures a + 1 < |v.mem| && End(b, a) + 1 < |v.mem|
    ensures Represents(v.(mem := UsedWords(v.mem, b, a)), nul, Used(b, a), lists, {}) && Undisturbed(Used(b, a), v.mem, UsedWords(v.mem, b, a))
  {
    hide Represents, Undisturbed;
    ReadHeader(v, nul, lists, b, {a}, a);
    ReadHeader(v, nul, lists, b, {a}, End(b, a));
    FlagStep(v, nul, lists, b, {a}, Used(b, a), {}, a, End(b, a));
  }

  lemma MarkedRepresents(v: Words, nul: nat, lists: Lists, b: Blocks, a: nat)
    requires Represents(v, nul, b, lists, {}) && Ok(b) && CanFree(b, a) && End(b, a) in b && a != End(b, a)
    ensures a + 1 < |v.mem| && End(b, a) + 1 < |v.mem|
    ensures Represents(v.(mem := MarkedWords(v.mem, b, a)), nul, Marked(b, a), lists, {a})
    ensures Undisturbed(Marked(b, a), v.mem, MarkedWords(v.mem, b, a))
  {
    hide Represents, Undisturbed;
    ReadHeader(v, nul, lists, b, {}, a);
    ReadHeader(v, nul, lists, b, {}, End(b, a));
    assert Local(b, a);
    FlagStep(v, nul, lists, b, {}, Marked(b, a), {a}, a, End(b, a));
  }

  // ---- Coalescing

  /** set_size of the joined block and prev_phys of the block after it. */
  function JoinWords(mem: seq<nat>, b: Blocks, a: nat): (r: seq<nat>)
    requires a in b && End(b, a) in b && End(b, End(b, a)) in b && a + 1 < |mem| && End(b, End(b, a)) < |mem|
    ensures |r| == |mem|
  {
    var e := End(b, a);
    mem[a + 1 := Flags(b[a].(words := b[a].words + OVERHEAD + b[e].words))][End(b, e) := a]
  }

  lemma JoinRepresents(v: Words, nul: nat, lists: Lists, b: Blocks, a: nat, out: set<nat>)
    requires Represents(v, nul, b, lists, out) && Ok(b) && a in b && Pair(b, a) && out == {a, End(b, a)}
    ensures Joinable(b, a) && a + 1 < |v.mem| && End(b, End(b, a)) + 1 < |v.mem|
    ensures var m, c := JoinWords(v.mem, b, a), Join(b, a);
      Represents(v.(mem := m), nul, c, lists, {a}) && Undisturbed(c, v.mem, m)
  {
    hide Represents, Undisturbed, Shape, Spells, Local, Disjoint, IsHeader, SameFree;
    Unfold(v, nul, lists, b, out);
    JoinKeepsOk(b, a);
    HeaderIs(v.mem, b, a);
    HeaderIs(v.mem, b, End(b, End(b, a)));
    JoinShape(b, a, |v.mem|, nul);
    JoinSpells(v.mem, b, a);
    assert SameFree(b, out, Join(b, a), {a}) by {
      JoinFree(b, a);
    }
    HeaderStep(v, JoinWords(v.mem, b, a), nul, lists, b, out, Join(b, a), {a});
  }

  lemma JoinFree(b: Blocks, a: nat)
    requires Ok(b) && a in b && Pair(b, a) && Joinable(b, a)
    ensures SameFree(b, {a, End(b, a)}, Join(b, a), {a})
  {
  }

  lemma JoinSpells(mem: seq<nat>, b: Blocks, a: nat)
    requires Spells(mem, b) && a in b && Joinable(b, a) && Disjoint(Join(b, a))
    requires a + 1 < |mem| && End(b, End(b, a)) + 1 < |mem|
    ensures var m, c := JoinWords(mem, b, a), Join(b, a);
      Spells(m, c) && forall w :: 0 <= w < |mem| && m[w] != mem[w] ==> IsHeader(c, w)
  {
    hide Disjoint;
    var m, c, f := JoinWords(mem, b, a), Join(b, a), End(b, End(b, a));
    assert Header(mem, b, a) && Header(mem, b, f);
    forall x | x in c
      ensures Header(m, c, x)
    {
      assert Header(mem, b, x);
      if x != a {
        HeadersApart(c, x, a);
      }
      if x != f {
        HeadersApart(c, x, f);
      }
    }
  }

  lemma JoinShape(b: Blocks, a: nat, size: nat, nul: nat)
    requires Ok(b) && Shape(b, size, nul) && a in b && Pair(b, a) && Joinable(b, a) && Ok(Join(b, a))
    ensures Shape(Join(b, a), size, nul)
  {
    hide Disjoint, NextAgrees, PrevAgrees;
    var c, e := Join(b, a), End(b, a);
    assert Placed(b, e, size, nul) && Placed(b, a, size, nul) && Local(c, a);
    forall x | x in c
      ensures Placed(c, x, size, nul)
    {
      assert Placed(b, x, size, nul);
    }
  }

  // ---- New pools

  function PoolWords(mem: seq<nat>, pool: Pool): (r: seq<nat>)
    requires pool.lo + 10 <= pool.hi <= |mem|
    ensures |r| == |mem|
  {
    mem[pool.lo := 0][pool.lo + 1 := 0][pool.lo + 2 := pool.lo][pool.lo + 3 := 4 * (pool.hi - pool.lo - 6) + 1]
       [pool.hi - 2 := pool.lo + 2][pool.hi - 1 := 2]
  }

  lemma PoolRepresents(v: Words, nul: nat, lists: Lists, b: Blocks, pool: Pool)
    requires Represents(v, nul, b, lists, {}) && Ok(b) && Coalesced(b) && Fresh(b, pool)
    requires 0 < pool.lo && pool.lo + 10 <= pool.hi < pool.lo + 6 + POOL_LIMIT && pool.hi <= |v.mem|
    requires pool.hi <= nul || nul + 4 <= pool.lo
    ensures var m, c := PoolWords(v.mem, pool), WithPool(b, pool);
      Represents(v.(mem := m), nul, c, lists, {pool.lo + 2}) && Undisturbed(c, v.mem, m)
  {
    hide Represents, Undisturbed, Coalesced, Local;
    Unfold(v, nul, lists, b, {});
    WithPoolKeepsOk(b, pool);
    var m, c := PoolWords(v.mem, pool), WithPool(b, pool);
    assert Shape(c, |m|, nul) by {
      forall x | x in c
        ensures Placed(c, x, |m|, nul)
      {
        assert x in b ==> Placed(b, x, |m|, nul);
      }
    }
    PoolSpells(v.mem, b, pool);
    NewPoolIsFree(b, pool);
    HeaderStep(v, m, nul, lists, b, {}, c, {pool.lo + 2});
  }

  lemma MainIs(b: Blocks, pool: Pool)
    requires pool.lo + 10 <= pool.hi < pool.lo + 6 + POOL_LIMIT
    ensures var c, a := WithPool(b, pool), pool.lo + 2; a in c && c[a].free && MIN_WORDS <= c[a].words < POOL_LIMIT
  {
  }

  lemma NewPoolIsFree(b: Blocks, pool: Pool)
    requires Ok(b) && Fresh(b, pool) && pool.lo + 10 <= pool.hi
    ensures SameFree(b, {}, WithPool(b, pool), {pool.lo + 2})
  {
    var c := WithPool(b, pool);
    forall x: nat
      ensures Awaits(b, x, {}) <==> Awaits(c, x, {pool.lo + 2}) && (Awaits(b, x, {}) ==> c[x].words == b[x].words)
    {
      if x in b {
        assert Local(b, x);
      }
    }
  }

  lemma PoolSpells(mem: seq<nat>, b: Blocks, pool: Pool)
    requires pool.lo + 10 <= pool.hi <= |mem| && Disjoint(WithPool(b, pool)) && Spells(mem, b)
    ensures var m, c := PoolWords(mem, pool), WithPool(b, pool);
      Spells(m, c) && forall w :: 0 <= w < |mem| && m[w] != mem[w] ==> IsHeader(c, w)
  {
    var m, c := PoolWords(mem, pool), WithPool(b, pool);
    forall x | x in c
      ensures Header(m, c, x)
    {
      if x != pool.lo && x != pool.lo + 2 && x != pool.hi - 2 {
        assert Header(mem, b, x);
        HeadersApart(c, x, pool.lo);
        HeadersApart(c, x, pool.lo + 2);
        HeadersApart(c, x, pool.hi - 2);
      }
    }
  }

  // ---- The steps of one call put together

  lemma Unchanged(v: Words, nul: nat, lists: Lists, b: Blocks, out: set<nat>)
    requires Represents(v, nul, b, lists, out)
    ensures Undisturbed(b, v.mem, v.mem)
  {
    hide Represents, Undisturbed;
    Unfold(v, nul, lists, b, out);
    NothingDisturbed(b, v.mem, nul);
  }

  lemma LiveAfterJoin(b: Blocks, a: nat)
    requires Ok(b) && a in b && Pair(b, a)
    ensures Joinable(b, a)
    ensures forall p: nat, words: nat :: IsLive(Join(b, a), p, words) <==> IsLive(b, p, words)
  {
    hide IsLive, Local, Disjoint, Join;
    FreeNeighboursJoin(b, a);
    forall p: nat, words: nat
      ensures IsLive(Join(b, a), p, words) <==> IsLive(b, p, words)
    {
      JoinLive(b, a, p, words);
    }
  }

  lemma FitIs(b: Blocks, n: nat, a: nat)
    requires n >= TLSF_BLOCK_MIN && n % 4 == 0 && GoodFit(b, n, a)
    ensures a in b && b[a].free && MIN_WORDS <= n / 4 <= b[a].words
  {
    hide SearchSize, ClassOf;
  }

  lemma AllocIs(b: Blocks, a: nat, n: nat)
    requires Ok(b) && a in b && b[a].free && MIN_WORDS <= n <= b[a].words
    ensures End(b, a) in b && a in Cut(b, a, n) && End(Cut(b, a, n), a) in Cut(b, a, n)
    ensures Alloc(b, a, n) == Used(Cut(b, a, n), a)
  {
    CutFacts(b, a, n);
  }

  lemma SizesOfFree(b: Blocks, a: nat)
    requires Ok(b) && a in b && b[a].free
    ensures MIN_WORDS <= b[a].words < POOL_LIMIT
  {
    assert Local(b, a);
  }

  lemma TailIs(b: Blocks, a: nat, n: nat)
    requires Ok(b) && a in b && b[a].free && MIN_WORDS <= n <= b[a].words
    ensures End(b, a) in b
    ensures var c, t := Cut(b, a, n), a + OVERHEAD + n;
      && a in c && c[a].free && End(c, a) in c && End(c, a) != a
      && if Splits(b, a, n) then
           t != a && t in c && c[t].free && MIN_WORDS <= c[t].words < POOL_LIMIT && t in CutOut(b, a, n) && CutOut(b, a, n) - {t} == {a}
         else CutOut(b, a, n) == {a}
  {
    hide Local, Disjoint;
    CutFacts(b, a, n);
    SizesOfFree(b, a);
  }

  lemma UsedKeepsLive(b: Blocks, a: nat, n: nat)
    requires Ok(b) && a in b && b[a].free && MIN_WORDS <= n <= b[a].words
    ensures forall p: nat, words: nat :: IsLive(b, p, words) ==> IsLive(Alloc(b, a, n), p, words)
  {
    hide IsLive, Ok, Alloc;
    forall p: nat, words: nat
      ensures IsLive(b, p, words) ==> IsLive(Alloc(b, a, n), p, words)
    {
      AllocLive(b, a, n, p, words);
    }
  }

  lemma AllocDisturbs(b: Blocks, a: nat, n: nat, m0: seq<nat>, m1: seq<nat>, m2: seq<nat>, m3: seq<nat>, m4: seq<nat>)
    requires Ok(b) && a in b && b[a].free && MIN_WORDS <= n <= b[a].words && End(b, a) in b
    requires Undisturbed(b, m0, m1) && Undisturbed(b, m1, m2)
    requires Undisturbed(Cut(b, a, n), m2, m3) && Undisturbed(Alloc(b, a, n), m3, m4)
    ensures Undisturbed(b, m0, m4)
  {
    hide Undisturbed, IsLive, Ok, Alloc, Cut;
    CutLive(b, a, n);
    UsedKeepsLive(b, a, n);
    Narrowed(b, Cut(b, a, n), m2, m3);
    Narrowed(b, Alloc(b, a, n), m3, m4);
    UndisturbedTwice(b, b, m0, m1, m2);
    UndisturbedTwice(b, b, m0, m2, m3);
    UndisturbedTwice(b, b, m0, m3, m4);
  }

  lemma FreedDisturbs(b: Blocks, a: nat, m0: seq<nat>, m1: seq<nat>, m2: seq<nat>, m3: seq<nat>, m4: seq<nat>)
    requires Ok(b) && CanFree(b, a) && End(b, a) in b && Ok(Marked(b, a)) && Marked(b, a)[a].free
    requires var c := MergedNext(Marked(b, a), a); Ok(c) && a in c && c[a].free && Undisturbed(c, m1, m2)
    requires Undisturbed(Marked(b, a), m0, m1) && Undisturbed(Freed(b, a), m2, m3) && Undisturbed(Freed(b, a), m3, m4)
    ensures Undisturbed(Freed(b, a), m0, m4)
  {
    hide Undisturbed, IsLive, Ok, Join, Pair;
    var m := Marked(b, a);
    var c, r := MergedNext(m, a), Freed(b, a);
    MergedNextKeepsLive(m, a);
    MergedPrevKeepsLive(c, a);
    UndisturbedTwice(m, c, m0, m1, m2);
    UndisturbedTwice(c, r, m0, m2, m3);
    UndisturbedTwice(r, r, m0, m3, m4);
  }

  lemma MergedNextKeepsLive(b: Blocks, a: nat)
    requires Ok(b) && a in b && b[a].free
    ensures forall p: nat, words: nat :: IsLive(MergedNext(b, a), p, words) <==> IsLive(b, p, words)
  {
    hide Ok, IsLive;
    if Pair(b, a) {
      LiveAfterJoin(b, a);
    }
  }

  lemma MergedPrevKeepsLive(b: Blocks, a: nat)
    requires Ok(b) && a in b && b[a].free
    ensures forall p: nat, words: nat :: IsLive(MergedPrev(b, a), p, words) <==> IsLive(b, p, words)
  {
    hide Ok, IsLive;
    if b[a].prevFree {
      PrevIsFree(b, a);
      LiveAfterJoin(b, b[a].prev);
    }
  }

  // ---- realloc

  /** The payload at ptr has moved to np, where there is room for n bytes; all others are where they were. */
  ghost predicate Moved(b: Blocks, mem: seq<nat>, b': Blocks, mem': seq<nat>, ptr: nat, np: nat, n: nat) {
    && np != 0
    && (forall words: nat :: IsLive(b, ptr, words) ==> SameContents(mem, ptr, mem', np, words))
    && exists size: nat :: n <= 4 * size && MovedTo(b, b', ptr, np, size)
  }

  ghost predicate MovedTo(b: Blocks, b': Blocks, ptr: nat, np: nat, size: nat) {
    forall p: nat, words: nat :: IsLive(b', p, words) <==> (IsLive(b, p, words) && p != ptr) || (p == np && words == size)
  }

  ghost predicate SameContents(mem: seq<nat>, p: nat, mem': seq<nat>, q: nat, words: nat) {
    p + words <= |mem| && q + words <= |mem'| && mem'[q..q + words] == mem[p..p + words]
  }

  lemma AllocIsMove(b: Blocks, a: nat, n: nat, ptr: nat)
    requires Ok(b) && Coalesced(b) && a in b && b[a].free && MIN_WORDS <= n <= b[a].words
    requires ptr >= OVERHEAD && CanFree(b, ptr - OVERHEAD)
    ensures var r := Alloc(b, a, n);
      && Ok(r) && CanFree(r, ptr - OVERHEAD) && r[ptr - OVERHEAD].words == b[ptr - OVERHEAD].words
      && CanFree(r, a) && n <= r[a].words && ptr != a + OVERHEAD
      && MovedTo(b, Freed(r, ptr - OVERHEAD), ptr, a + OVERHEAD, r[a].words)
  {
    hide Alloc, Freed, Ok, Coalesced;
    AllocKeepsOk(b, a, n);
    var r := Alloc(b, a, n);
    AllocLive(b, a, n, ptr, b[ptr - OVERHEAD].words);
    AllocLive(b, a, n, a + OVERHEAD, r[a].words);
    forall p: nat, words: nat
      ensures IsLive(Freed(r, ptr - OVERHEAD), p, words)
              <==> (IsLive(b, p, words) && p != ptr) || (p == a + OVERHEAD && words == r[a].words)
    {
      AllocLive(b, a, n, p, words);
      FreedLive(r, ptr - OVERHEAD, p, words);
    }
  }

  /** The contents reach the new place, and nothing else is touched, over the three stages of a move. */
  lemma MoveKeeps(b: Blocks, b1: Blocks, b2: Blocks, m0: seq<nat>, m1: seq<nat>, m2: seq<nat>, m3: seq<nat>, ptr: nat, np: nat, size: nat)
    requires MovedTo(b, b2, ptr, np, size) && !IsLive(b, np, size) && np != ptr
    requires Undisturbed(b, m0, m1) && Undisturbed(b2, m2, m3)
    requires forall p: nat, words: nat :: IsLive(b, p, words) ==> IsLive(b1, p, words) && p != np
    requires forall p: nat, words: nat :: IsLive(b1, p, words) && p != np ==> Kept(p, words, m1, m2)
    requires forall words: nat :: IsLive(b, ptr, words) ==> words <= size && SameContents(m1, ptr, m2, np, words)
    ensures forall words: nat :: IsLive(b, ptr, words) ==> SameContents(m0, ptr, m3, np, words)
    ensures forall p: nat, words: nat :: IsLive(b, p, words) && p != ptr ==> Kept(p, words, m0, m3)
  {
    hide IsLive;
    forall words: nat | IsLive(b, ptr, words)
      ensures SameContents(m0, ptr, m3, np, words)
    {
      assert IsLive(b2, np, size) && Kept(np, size, m2, m3) && Kept(ptr, words, m0, m1);
      assert m3[np..np + words] == m2[np..np + words] && m1[ptr..ptr + words] == m0[ptr..ptr + words];
    }
    forall p: nat, words: nat | IsLive(b, p, words) && p != ptr
      ensures Kept(p, words, m0, m3)
    {
      assert Kept(p, words, m0, m1) && Kept(p, words, m1, m2);
      assert IsLive(b2, p, words);
      assert Kept(p, words, m2, m3);
    }
  }

  lemma StillLive(b: Blocks, a: nat, n: nat)
    requires Ok(b) && a in b && b[a].free && MIN_WORDS <= n <= b[a].words
    ensures a in Alloc(b, a, n) && !IsLive(b, a + OVERHEAD, Alloc(b, a, n)[a].words)
    ensures forall p: nat, words: nat :: IsLive(b, p, words) ==> IsLive(Alloc(b, a, n), p, words) && p != a + OVERHEAD
  {
    hide Alloc, Ok;
    AllocLive(b, a, n, 0, 0);
    UsedKeepsLive(b, a, n);
  }

  lemma FreedKeepsOthers(b: Blocks, a: nat)
    requires Ok(b) && CanFree(b, a)
    ensures forall p: nat, words: nat :: IsLive(b, p, words) && p != a + OVERHEAD ==> IsLive(Freed(b, a), p, words)
  {
    hide IsLive, Freed, Ok;
    forall p: nat, words: nat
      ensures IsLive(b, p, words) && p != a + OVERHEAD ==> IsLive(Freed(b, a), p, words)
    {
      FreedLive(b, a, p, words);
    }
  }

  lemma NothingMoved(b: Blocks, mem: seq<nat>, mem': seq<nat>)
    requires Undisturbed(b, mem, mem')
    ensures forall p: nat, words: nat :: IsLive(b, p, words) ==> Kept(p, words, mem, mem')
  {
    hide IsLive, Kept;
  }

  lemma LiveIs(b: Blocks, ptr: nat)
    requires ptr >= OVERHEAD && CanFree(b, ptr - OVERHEAD)
    ensures forall words: nat :: IsLive(b, ptr, words) <==> words == b[ptr - OVERHEAD].words
  {
  }

  lemma CopyApart(b: Blocks, dst: nat, src: nat, words: nat)
    requires Ok(b) && dst >= OVERHEAD && src >= OVERHEAD && dst != src
    requires CanFree(b, dst - OVERHEAD) && CanFree(b, src - OVERHEAD)
    requires words <= b[dst - OVERHEAD].words && words == b[src - OVERHEAD].words
    ensures dst + words <= src || src + words <= dst
  {
  }

  // ---- The start

  /** Nothing but null_blk: every list head points to it and no bit is set. */
  lemma EmptyRepresents(v: Words, nul: nat, lists: Lists)
    requires 0 < nul && nul + 4 <= |v.mem| && |v.heads| == CLASS_COUNT && |lists.of| == CLASS_COUNT
    requires (forall c :: 0 <= c < CLASS_COUNT ==> v.heads[c] == nul) && forall c :: 0 <= c < CLASS_COUNT ==> lists.of[c] == []
    requires v.fl == {} && |v.sl| == FL_INDEX_COUNT && forall f :: 0 <= f < FL_INDEX_COUNT ==> v.sl[f] == {}
    ensures Represents(v, nul, map[], lists, {}) && Ok(map[]) && Coalesced(map[])
  {
  }

  /** The header that add_pool writes from an unrounded length: or-ing in F_FREE gives the flags of a free block exactly if bit 1 is clear. */
  lemma PoolFlagsIff(bytes: nat, pool: Pool)
    requires 24 <= bytes
    ensures (bytes - 24) / 2 * 2 + 1 == Flags(Block(pool.lo, (bytes - 24) / 4, true, false, pool)) <==> bytes % 4 < 2
  {
    var w, k := (bytes - 24) / 4, (bytes - 24) % 4;
    assert bytes - 24 == 4 * w + k && bytes % 4 == k;
    assert (4 * w + k) / 2 == 2 * w + k / 2;
  }

  lemma PoolNumbers(bytes: nat)
    requires 40 <= bytes && bytes % 4 < 2
    ensures var w: nat := bytes / 4 - 6;
      (bytes - 24) / 2 * 2 + 1 == 4 * w + 1 && SizeOf(4 * w + 1) / 4 == w && SizeOf(0) / 4 == 0
  {
    PoolFlagsIff(bytes, Pool(0, 0));
    assert (bytes - 24) / 4 == bytes / 4 - 6;
    LowBits(bytes / 4 - 6, 1);
  }

  /** A region that add_pool can be given: apart from the pools in use and from null_blk, of at most 32 MB. */
  ghost predicate CanAdd(b: Blocks, size: nat, nul: nat, p: nat, bytes: nat) {
    && bytes % 4 < 2
    && (p != 0 && bytes >= 40 ==>
          && Fresh(b, Pool(p, p + bytes / 4)) && p + bytes / 4 <= size && bytes < 4 * POOL_LIMIT + 24
          && (p + bytes / 4 <= nul || nul + 4 <= p))
  }
}
