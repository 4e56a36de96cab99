// The words behind the two-level segregated fit heap: headers and free-list links in one memory,
// the table of list heads and the two levels of bitmaps over it.
module TlsfLists {
  import opened TlsfClasses
  import opened TlsfBlocks

  /** The free lists by class number, each in list order. */
  datatype Lists = Lists(of: seq<seq<nat>>)

  /** Memory, list heads (by class number), fl_bitmap and sl_bitmap; a bitmap word is the set of its bits. */
  datatype Words = Words(mem: seq<nat>, heads: seq<nat>, fl: set<nat>, sl: seq<set<nat>>)

  // ---- Headers

  function Flags(x: Block): nat {
    4 * x.words + (if x.free then 1 else 0) + (if x.prevFree then 2 else 0)
  }

  lemma FlagBits(x: Block)
    ensures Flags(x) / 4 == x.words && (Flags(x) % 2 == 1 <==> x.free) && (Flags(x) / 2 % 2 == 1 <==> x.prevFree)
  {
    LowBits(x.words, (if x.free then 1 else 0) + (if x.prevFree then 2 else 0));
  }

  lemma LowBits(w: nat, k: nat)
    requires k < 4
    ensures (4 * w + k) / 4 == w && (4 * w + k) % 2 == k % 2 && (4 * w + k) / 2 % 2 == k / 2
  {
    assert (4 * w + k) / 2 == 2 * w + k / 2;
  }

  // size(), is_free(), set_size() and the flag updates, on the word size_flags.

  function SizeOf(f: nat): nat { f / 4 * 4 }

  function WithSize(f: nat, size: nat): nat { size + f % 4 }

  function WithFree(f: nat, free: bool): nat { f / 2 * 2 + if free then 1 else 0 }

  function WithPrevFree(f: nat, prevFree: bool): nat { f / 4 * 4 + f % 2 + if prevFree then 2 else 0 }

  lemma FlagUpdates(x: Block, words: nat, bit: bool)
    ensures SizeOf(Flags(x)) == 4 * x.words && WithSize(Flags(x), 4 * words) == Flags(x.(words := words))
    ensures WithFree(Flags(x), bit) == Flags(x.(free := bit)) && WithPrevFree(Flags(x), bit) == Flags(x.(prevFree := bit))
  {
    LowBits(x.words, (if x.free then 1 else 0) + (if x.prevFree then 2 else 0));
  }

  ghost predicate Header(mem: seq<nat>, b: Blocks, a: nat)
    requires a in b
  {
    a + 1 < |mem| && mem[a] == b[a].prev && mem[a + 1] == Flags(b[a])
  }

  /** The memory holds the headers of b. */
  ghost predicate Spells(mem: seq<nat>, b: Blocks) {
    forall a :: a in b ==> Header(mem, b, a)
  }

  ghost predicate IsHeader(b: Blocks, w: nat) {
    w in b || (w > 0 && w - 1 in b)
  }

  /** Blocks lie apart, within the memory, and off the four words of null_blk. */
  ghost predicate Shape(b: Blocks, size: nat, nul: nat) {
    && Disjoint(b) && 0 < nul && nul + 4 <= size
    && forall a :: a in b ==> Placed(b, a, size, nul)
  }

  ghost predicate Placed(b: Blocks, a: nat, size: nat, nul: nat)
    requires a in b
  {
    && 0 < a && End(b, a) <= size && (End(b, a) <= nul || nul + 4 <= a)
    && (b[a].free ==> MIN_WORDS <= b[a].words < POOL_LIMIT)
  }

  // ---- Lists

  function ListOf(words: nat): (c: nat)
    requires MIN_WORDS <= words < POOL_LIMIT
    ensures c < CLASS_COUNT
  {
    ClassInTable(4 * words);
    ClassOf(4 * words)
  }

  /** Each free block of b other than those in out is in the list of its class, and nothing else is in a list. */
  ghost predicate Filed(b: Blocks, lists: Lists, out: set<nat>) {
    && |lists.of| == CLASS_COUNT
    && (forall c, i :: 0 <= c < CLASS_COUNT && 0 <= i < |lists.of[c]| ==> Member(b, lists.of[c][i], c, out))
    && (forall x :: x in b && b[x].free && x !in out ==> Listed(b, x, lists))
    && forall c :: 0 <= c < CLASS_COUNT ==> NoDuplicates(lists.of[c])
  }

  ghost predicate Member(b: Blocks, x: nat, c: nat, out: set<nat>) {
    x in b && b[x].free && x !in out && MIN_WORDS <= b[x].words < POOL_LIMIT && ListOf(b[x].words) == c
  }

  ghost predicate Listed(b: Blocks, x: nat, lists: Lists)
    requires x in b
  {
    MIN_WORDS <= b[x].words < POOL_LIMIT && ListOf(b[x].words) < |lists.of| && x in lists.of[ListOf(b[x].words)]
  }

  ghost predicate NoDuplicates(l: seq<nat>) {
    forall i, j :: 0 <= i < j < |l| ==> l[i] != l[j]
  }

  /** Element i of a list, null_blk standing at both ends. */
  function At(l: seq<nat>, nul: nat, i: int): nat {
    if 0 <= i < |l| then l[i] else nul
  }

  ghost predicate Link(mem: seq<nat>, nul: nat, l: seq<nat>, i: nat) {
    i < |l| && l[i] + 3 < |mem| && mem[l[i] + 2] == At(l, nul, i + 1) && mem[l[i] + 3] == At(l, nul, i - 1)
  }

  /** next_free and prev_free of the members of l spell out l. */
  ghost predicate Chained(mem: seq<nat>, nul: nat, l: seq<nat>) {
    forall i {:trigger Link(mem, nul, l, i)} :: 0 <= i < |l| ==> Link(mem, nul, l, i)
  }

  ghost predicate Linked(mem: seq<nat>, heads: seq<nat>, nul: nat, lists: Lists) {
    && |heads| == CLASS_COUNT == |lists.of|
    && forall c {:trigger lists.of[c]} :: 0 <= c < CLASS_COUNT ==> heads[c] == At(lists.of[c], nul, 0) && Chained(mem, nul, lists.of[c])
  }

  /** A bit of sl_bitmap is set iff its list is not empty, a bit of fl_bitmap iff its row has a bit set. */
  ghost predicate BitsOk(fl: set<nat>, sl: seq<set<nat>>, lists: Lists) {
    && |sl| == FL_INDEX_COUNT && |lists.of| == CLASS_COUNT
    && (forall c {:trigger lists.of[c]} :: 0 <= c < CLASS_COUNT ==> (c % 16 in sl[c / 16] <==> lists.of[c] != []))
    && (forall f, s :: 0 <= f < FL_INDEX_COUNT && s in sl[f] ==> s < SL_CLASS_COUNT)
    && (forall f :: f in fl ==> f < FL_INDEX_COUNT)
    && forall f :: 0 <= f < FL_INDEX_COUNT ==> (f in fl <==> sl[f] != {})
  }

  /** The words stand for the blocks b and the lists, with the free blocks of out in no list. */
  ghost predicate Represents(v: Words, nul: nat, b: Blocks, lists: Lists, out: set<nat>) {
    && Shape(b, |v.mem|, nul) && Spells(v.mem, b)
    && Filed(b, lists, out) && Linked(v.mem, v.heads, nul, lists) && BitsOk(v.fl, v.sl, lists)
  }

  lemma Sizes(v: Words, nul: nat, b: Blocks, lists: Lists, out: set<nat>)
    requires Represents(v, nul, b, lists, out)
    ensures |v.heads| == CLASS_COUNT == |lists.of| && |v.sl| == FL_INDEX_COUNT && 0 < nul && nul + 4 <= |v.mem|
  {
  }

  // ---- Insertion

  /** fl_insert of block x in list c. */
  function Inserted(v: Words, nul: nat, x: nat, c: nat): Words
    requires c < |v.heads| && c / 16 < |v.sl| && x + 3 < |v.mem| && v.heads[c] + 3 < |v.mem|
  {
    var h := v.heads[c];
    Words(v.mem[x + 2 := h][x + 3 := nul][h + 3 := x], v.heads[c := x], v.fl + {c / 16}, v.sl[c / 16 := v.sl[c / 16] + {c % 16}])
  }

  function Pushed(lists: Lists, c: nat, x: nat): Lists
    requires c < |lists.of|
  {
    Lists(lists.of[c := [x] + lists.of[c]])
  }

  /** Two blocks that are both free, or one and null_blk, are at least four words apart. */
  lemma Apart(b: Blocks, size: nat, nul: nat, x: nat, y: nat)
    requires Shape(b, size, nul) && x in b && b[x].free
    requires y == nul || (y in b && b[y].free && y != x)
    ensures x + 4 <= y || y + 4 <= x
  {
    assert Placed(b, x, size, nul);
  }

  /** The head of a list is null_blk or a listed block. */
  lemma HeadIs(v: Words, nul: nat, b: Blocks, lists: Lists, out: set<nat>, c: nat)
    requires Represents(v, nul, b, lists, out) && c < CLASS_COUNT
    ensures var h := v.heads[c];
      h + 3 < |v.mem| && (lists.of[c] == [] ==> h == nul) && (lists.of[c] != [] ==> h == lists.of[c][0] && Member(b, h, c, out))
  {
    if lists.of[c] != [] {
      assert Member(b, lists.of[c][0], c, out);
      assert Placed(b, lists.of[c][0], |v.mem|, nul);
    }
  }

  lemma PushedIsFiled(b: Blocks, lists: Lists, out: set<nat>, x: nat)
    requires Filed(b, lists, out) && x in b && b[x].free && x in out && MIN_WORDS <= b[x].words < POOL_LIMIT
    ensures Filed(b, Pushed(lists, ListOf(b[x].words), x), out - {x})
  {
    hide ListOf;
    var c := ListOf(b[x].words);
    var r := Pushed(lists, c, x);
    forall d, i | 0 <= d < CLASS_COUNT && 0 <= i < |r.of[d]|
      ensures Member(b, r.of[d][i], d, out - {x})
    {
      if d != c {
        assert Member(b, lists.of[d][i], d, out);
      } else if i > 0 {
        assert Member(b, lists.of[c][i - 1], c, out);
      }
    }
    forall y | y in b && b[y].free && y !in out - {x}
      ensures Listed(b, y, r)
    {
      assert r.of[c][0] == x;
      if y != x {
        assert Listed(b, y, lists);
        var d := ListOf(b[y].words);
        var i :| 0 <= i < |lists.of[d]| && lists.of[d][i] == y;
        assert r.of[d][if d == c then i + 1 else i] == y;
      }
    }
    assert NoDuplicates(lists.of[c]);
    assert NoDuplicates(r.of[c]) by {
      assert forall i :: 0 <= i < |lists.of[c]| ==> Member(b, lists.of[c][i], c, out);
    }
  }

  lemma InsertedIsLinked(v: Words, nul: nat, b: Blocks, lists: Lists, out: set<nat>, x: nat)
    requires Represents(v, nul, b, lists, out)
    requires x in b && b[x].free && x in out && MIN_WORDS <= b[x].words < POOL_LIMIT
    ensures var c := ListOf(b[x].words);
      && |v.sl| == FL_INDEX_COUNT && |v.heads| == CLASS_COUNT && |lists.of| == CLASS_COUNT
      && x + 3 < |v.mem| && v.heads[c] + 3 < |v.mem|
      && var r := Inserted(v, nul, x, c); Linked(r.mem, r.heads, nul, Pushed(lists, c, x))
  {
    hide ListOf, Spells, Shape, BitsOk;
    Sizes(v, nul, b, lists, out);
    var c := ListOf(b[x].words);
    HeadIs(v, nul, b, lists, out, c);
    PlacedIn(b, |v.mem|, nul, x);
    var r, q := Inserted(v, nul, x, c), Pushed(lists, c, x);
    forall d | 0 <= d < CLASS_COUNT
      ensures r.heads[d] == At(q.of[d], nul, 0) && Chained(r.mem, nul, q.of[d])
    {
      forall i | 0 <= i < |q.of[d]|
        ensures Link(r.mem, nul, q.of[d], i)
      {
        InsertedLink(v, nul, b, lists, out, x, c, d, i);
      }
    }
  }

  lemma InsertedLink(v: Words, nul: nat, b: Blocks, lists: Lists, out: set<nat>, x: nat, c: nat, d: nat, i: nat)
    requires Represents(v, nul, b, lists, out) && c < CLASS_COUNT == |lists.of| && |v.heads| == CLASS_COUNT && |v.sl| == FL_INDEX_COUNT
    requires x in b && b[x].free && x in out && x + 3 < |v.mem| && v.heads[c] + 3 < |v.mem|
    requires d < CLASS_COUNT && i < |Pushed(lists, c, x).of[d]|
    ensures Link(Inserted(v, nul, x, c).mem, nul, Pushed(lists, c, x).of[d], i)
  {
    hide Represents, Filed, Linked, Chained, Member, NoDuplicates;
    HeadIs(v, nul, b, lists, out, c);
    InsertionApart(v, nul, b, lists, out, x, c);
    var h, l := v.heads[c], lists.of[d];
    if d != c || i > 0 {
      var k: nat := if d == c then i - 1 else i;
      InsertionBeside(v, nul, b, lists, out, x, c, d, k);
      if d == c {
        PushedAt(l, nul, x, i - 1);
        PushedAt(l, nul, x, i + 1);
      }
    }
  }

  lemma InsertionApart(v: Words, nul: nat, b: Blocks, lists: Lists, out: set<nat>, x: nat, c: nat)
    requires Represents(v, nul, b, lists, out) && c < CLASS_COUNT == |lists.of| && |v.heads| == CLASS_COUNT
    requires x in b && b[x].free && x in out
    ensures var h := v.heads[c]; x + 4 <= h || h + 4 <= x
  {
    hide ListOf, Spells, Shape, BitsOk;
    HeadIs(v, nul, b, lists, out, c);
    Apart(b, |v.mem|, nul, x, v.heads[c]);
  }

  /** A listed block lies apart from one that is not, and from the head of list c unless it is that head. */
  lemma InsertionBeside(v: Words, nul: nat, b: Blocks, lists: Lists, out: set<nat>, x: nat, c: nat, d: nat, k: nat)
    requires Represents(v, nul, b, lists, out) && c < CLASS_COUNT == |lists.of| && |v.heads| == CLASS_COUNT
    requires x in b && b[x].free && x in out && d < CLASS_COUNT && k < |lists.of[d]|
    ensures var y, h := lists.of[d][k], v.heads[c];
      && Link(v.mem, nul, lists.of[d], k) && (x + 4 <= y || y + 4 <= x)
      && (y == h <==> d == c && k == 0) && (y != h ==> y + 4 <= h || h + 4 <= y)
  {
    hide ListOf, Spells, Shape, BitsOk;
    HeadIs(v, nul, b, lists, out, c);
    var y, h := lists.of[d][k], v.heads[c];
    assert Chained(v.mem, nul, lists.of[d]) && NoDuplicates(lists.of[d]) && Member(b, y, d, out);
    assert Link(v.mem, nul, lists.of[d], k);
    PlacedIn(b, |v.mem|, nul, y);
    Apart(b, |v.mem|, nul, y, x);
    if y != h {
      Apart(b, |v.mem|, nul, y, h);
    }
  }

  lemma PushedAt(l: seq<nat>, nul: nat, x: nat, i: int)
    ensures At([x] + l, nul, i) == if i == 0 then x else At(l, nul, i - 1)
  {
  }

  lemma PlacedIn(b: Blocks, size: nat, nul: nat, x: nat)
    requires Shape(b, size, nul) && x in b
    ensures Placed(b, x, size, nul)
  {
  }

  lemma BitsAfterPush(fl: set<nat>, sl: seq<set<nat>>, lists: Lists, c: nat, x: nat)
    requires BitsOk(fl, sl, lists) && c < CLASS_COUNT
    ensures BitsOk(fl + {c / 16}, sl[c / 16 := sl[c / 16] + {c % 16}], Pushed(lists, c, x))
  {
    var s, q := sl[c / 16 := sl[c / 16] + {c % 16}], Pushed(lists, c, x);
    forall d | 0 <= d < CLASS_COUNT
      ensures d % 16 in s[d / 16] <==> q.of[d] != []
    {
      assert d % 16 in sl[d / 16] <==> lists.of[d] != [];
    }
  }

  /** Memory words that are not headers may change without changing the headers. */
  lemma SpellsFrame(mem: seq<nat>, mem': seq<nat>, b: Blocks)
    requires Spells(mem, b) && |mem'| == |mem|
    requires forall w :: 0 <= w < |mem| && mem'[w] != mem[w] ==> !IsHeader(b, w)
    ensures Spells(mem', b)
  {
    forall a | a in b
      ensures Header(mem', b, a)
    {
      assert Header(mem, b, a) && IsHeader(b, a) && IsHeader(b, a + 1);
    }
  }

  /** The words of a block behind its header are no headers. */
  lemma InsideIsNoHeader(b: Blocks, size: nat, nul: nat, x: nat, w: nat)
    requires Shape(b, size, nul)
    requires (x in b && x + 2 <= w < End(b, x)) || nul <= w < nul + 4
    ensures !IsHeader(b, w)
  {
  }

  lemma InsertedRepresents(v: Words, nul: nat, b: Blocks, lists: Lists, out: set<nat>, x: nat)
    requires Represents(v, nul, b, lists, out)
    requires x in b && b[x].free && x in out && MIN_WORDS <= b[x].words < POOL_LIMIT
    ensures var c := ListOf(b[x].words);
      && |v.sl| == FL_INDEX_COUNT && |v.heads| == CLASS_COUNT && |lists.of| == CLASS_COUNT
      && x + 3 < |v.mem| && v.heads[c] + 3 < |v.mem|
      && var r := Inserted(v, nul, x, c);
         Represents(r, nul, b, Pushed(lists, c, x), out - {x}) && Undisturbed(b, v.mem, r.mem)
  {
    hide Filed, Linked, BitsOk, ListOf, Shape, Spells, Undisturbed;
    InsertedIsLinked(v, nul, b, lists, out, x);
    PushedIsFiled(b, lists, out, x);
    var c := ListOf(b[x].words);
    BitsAfterPush(v.fl, v.sl, lists, c, x);
    HeadIs(v, nul, b, lists, out, c);
    var h, r := v.heads[c], Inserted(v, nul, x, c);
    PlacedIn(b, |v.mem|, nul, x);
    LinkWordsAreFree(v.mem, r.mem, nul, b, x, h);
  }

  // ---- Removal

  /** p and n become each other's neighbours. */
  function Relinked(mem: seq<nat>, p: nat, n: nat): (r: seq<nat>)
    requires p + 3 < |mem| && n + 3 < |mem|
    ensures |r| == |mem|
  {
    mem[p + 2 := n][n + 3 := p]
  }

  /** fl_remove of block x from list c. */
  function Removed(v: Words, nul: nat, x: nat, c: nat): Words
    requires c < |v.heads| && c / 16 < |v.sl| && x + 3 < |v.mem| && v.mem[x + 2] + 3 < |v.mem| && v.mem[x + 3] + 3 < |v.mem|
  {
    var n, p := v.mem[x + 2], v.mem[x + 3];
    var mem := Relinked(v.mem, p, n);
    if v.heads[c] != x then v.(mem := mem)
    else if n != nul then v.(mem := mem, heads := v.heads[c := n])
    else
      var row := v.sl[c / 16] - {c % 16};
      Words(mem, v.heads[c := n], if row == {} then v.fl - {c / 16} else v.fl, v.sl[c / 16 := row])
  }

  function Without(l: seq<nat>, i: nat): seq<nat>
    requires i < |l|
  {
    l[..i] + l[i + 1..]
  }

  function Dropped(lists: Lists, c: nat, i: nat): Lists
    requires c < |lists.of| && i < |lists.of[c]|
  {
    Lists(lists.of[c := Without(lists.of[c], i)])
  }

  lemma DroppedIsFiled(b: Blocks, lists: Lists, out: set<nat>, c: nat, i: nat)
    requires Filed(b, lists, out) && c < CLASS_COUNT && i < |lists.of[c]|
    ensures Filed(b, Dropped(lists, c, i), out + {lists.of[c][i]})
  {
    hide ListOf;
    var x := lists.of[c][i];
    var r, l := Dropped(lists, c, i), lists.of[c];
    assert NoDuplicates(l) && Member(b, x, c, out);
    forall d, k | 0 <= d < CLASS_COUNT && 0 <= k < |r.of[d]|
      ensures Member(b, r.of[d][k], d, out + {x})
    {
      var k0 := if d == c && k >= i then k + 1 else k;
      assert r.of[d][k] == lists.of[d][k0] && Member(b, lists.of[d][k0], d, out);
    }
    forall y | y in b && b[y].free && y !in out + {x}
      ensures Listed(b, y, r)
    {
      assert Listed(b, y, lists);
      var d := ListOf(b[y].words);
      var k :| 0 <= k < |lists.of[d]| && lists.of[d][k] == y;
      assert r.of[d][if d == c && k > i then k - 1 else k] == y;
    }
    assert NoDuplicates(r.of[c]);
  }

  /** The neighbours of a list member are null_blk or other members. */
  lemma NeighboursAre(v: Words, nul: nat, b: Blocks, lists: Lists, out: set<nat>, c: nat, i: nat)
    requires Represents(v, nul, b, lists, out) && c < CLASS_COUNT && i < |lists.of[c]|
    ensures var l := lists.of[c]; var x := l[i];
      && Member(b, x, c, out) && x + 3 < |v.mem| && v.mem[x + 2] == At(l, nul, i + 1) && v.mem[x + 3] == At(l, nul, i - 1)
      && v.mem[x + 2] + 3 < |v.mem| && v.mem[x + 3] + 3 < |v.mem|
      && (i + 1 < |l| ==> Member(b, l[i + 1], c, out)) && (i > 0 ==> Member(b, l[i - 1], c, out))
      && (v.heads[c] == x <==> i == 0) && x != nul && At(l, nul, i + 1) != x && At(l, nul, i - 1) != x
      && (At(l, nul, i + 1) == nul <==> i + 1 == |l|)
  {
    hide ListOf;
    var l := lists.of[c];
    assert Chained(v.mem, nul, l) && NoDuplicates(l);
    assert Link(v.mem, nul, l, i);
    assert Member(b, l[i], c, out) && Member(b, l[0], c, out);
    assert Placed(b, l[i], |v.mem|, nul);
    if i + 1 < |l| {
      assert Member(b, l[i + 1], c, out) && Placed(b, l[i + 1], |v.mem|, nul);
    }
    if i > 0 {
      assert Member(b, l[i - 1], c, out) && Placed(b, l[i - 1], |v.mem|, nul);
    }
  }

  lemma RemovedIsLinked(v: Words, nul: nat, b: Blocks, lists: Lists, out: set<nat>, c: nat, i: nat)
    requires Represents(v, nul, b, lists, out) && c < CLASS_COUNT && i < |lists.of[c]|
    ensures var x := lists.of[c][i];
      && |v.sl| == FL_INDEX_COUNT && |v.heads| == CLASS_COUNT
      && x + 3 < |v.mem| && v.mem[x + 2] + 3 < |v.mem| && v.mem[x + 3] + 3 < |v.mem|
      && var r := Removed(v, nul, x, c); Linked(r.mem, r.heads, nul, Dropped(lists, c, i))
  {
    hide ListOf, Spells, Shape, BitsOk, Relinked;
    Sizes(v, nul, b, lists, out);
    NeighboursAre(v, nul, b, lists, out, c, i);
    var x := lists.of[c][i];
    var r, q := Removed(v, nul, x, c), Dropped(lists, c, i);
    forall d | 0 <= d < CLASS_COUNT
      ensures r.heads[d] == At(q.of[d], nul, 0) && Chained(r.mem, nul, q.of[d])
    {
      forall k | 0 <= k < |q.of[d]|
        ensures Link(r.mem, nul, q.of[d], k)
      {
        RemovedLink(v, nul, b, lists, out, c, i, d, k, v.mem[x + 3], v.mem[x + 2]);
      }
    }
  }

  lemma RemovedLink(v: Words, nul: nat, b: Blocks, lists: Lists, out: set<nat>, c: nat, i: nat, d: nat, k: nat, p: nat, n: nat)
    requires Represents(v, nul, b, lists, out) && c < CLASS_COUNT == |lists.of| && i < |lists.of[c]|
    requires d < CLASS_COUNT && k < |Dropped(lists, c, i).of[d]| && p + 3 < |v.mem| && n + 3 < |v.mem|
    requires n == At(lists.of[c], nul, i + 1) && p == At(lists.of[c], nul, i - 1)
    ensures Link(Relinked(v.mem, p, n), nul, Dropped(lists, c, i).of[d], k)
  {
    hide Represents, Filed, Linked, Chained, Member, NoDuplicates;
    var l := lists.of[d];
    var k0: nat := if d == c && k >= i then k + 1 else k;
    var y := l[k0];
    NeighbourOf(v, nul, b, lists, out, c, i, d, k0, i + 1);
    NeighbourOf(v, nul, b, lists, out, c, i, d, k0, i - 1);
    Rewritten(v.mem, p, n, y);
    if d == c {
      WithoutAt(l, nul, i, k - 1);
      WithoutAt(l, nul, i, k);
      WithoutAt(l, nul, i, k + 1);
    }
  }

  /** A listed block is element j of list c just where it stands there, and lies apart from it otherwise. */
  lemma NeighbourOf(v: Words, nul: nat, b: Blocks, lists: Lists, out: set<nat>, c: nat, i: nat, d: nat, k: nat, j: int)
    requires Represents(v, nul, b, lists, out) && c < CLASS_COUNT && d < CLASS_COUNT && |lists.of| == CLASS_COUNT
    requires i < |lists.of[c]| && k < |lists.of[d]| && (j == i + 1 || j == i - 1)
    ensures var y, z := lists.of[d][k], At(lists.of[c], nul, j);
      Link(v.mem, nul, lists.of[d], k) && (y == z <==> d == c && k == j) && (y != z ==> y + 4 <= z || z + 4 <= y)
  {
    hide ListOf, Spells, Shape, BitsOk;
    Sizes(v, nul, b, lists, out);
    NeighboursAre(v, nul, b, lists, out, c, i);
    var l := lists.of[d];
    var y := l[k];
    assert Chained(v.mem, nul, l) && NoDuplicates(l) && Member(b, y, d, out);
    assert Link(v.mem, nul, l, k);
    PlacedIn(b, |v.mem|, nul, y);
    var z := At(lists.of[c], nul, j);
    if y != z {
      Apart(b, |v.mem|, nul, y, z);
    }
  }

  lemma Rewritten(mem: seq<nat>, p: nat, n: nat, y: nat)
    requires p + 3 < |mem| && n + 3 < |mem| && y + 3 < |mem| && y + 3 != p + 2 && n + 3 != y + 2 && (y == p ==> n != p)
    ensures var r := Relinked(mem, p, n);
      r[y + 2] == (if y == p then n else mem[y + 2]) && r[y + 3] == if y == n then p else mem[y + 3]
  {
  }

  lemma WithoutAt(l: seq<nat>, nul: nat, i: nat, k: int)
    requires i < |l|
    ensures At(Without(l, i), nul, k) == At(l, nul, if k < i then k else k + 1)
  {
  }

  lemma BitsAfterDrop(v: Words, nul: nat, b: Blocks, lists: Lists, out: set<nat>, c: nat, i: nat)
    requires Represents(v, nul, b, lists, out) && c < CLASS_COUNT && i < |lists.of[c]|
    ensures var x := lists.of[c][i];
      && |v.sl| == FL_INDEX_COUNT && |v.heads| == CLASS_COUNT
      && x + 3 < |v.mem| && v.mem[x + 2] + 3 < |v.mem| && v.mem[x + 3] + 3 < |v.mem|
      && var r := Removed(v, nul, x, c); BitsOk(r.fl, r.sl, Dropped(lists, c, i))
  {
    hide ListOf, Spells, Shape, Filed, Linked;
    Sizes(v, nul, b, lists, out);
    NeighboursAre(v, nul, b, lists, out, c, i);
    var x := lists.of[c][i];
    var r, q := Removed(v, nul, x, c), Dropped(lists, c, i);
    forall d | 0 <= d < CLASS_COUNT
      ensures d % 16 in r.sl[d / 16] <==> q.of[d] != []
    {
      assert d % 16 in v.sl[d / 16] <==> lists.of[d] != [];
    }
  }

  lemma RemovedRepresents(v: Words, nul: nat, b: Blocks, lists: Lists, out: set<nat>, c: nat, i: nat)
    requires Represents(v, nul, b, lists, out) && c < CLASS_COUNT && i < |lists.of[c]|
    ensures var x := lists.of[c][i];
      && |v.sl| == FL_INDEX_COUNT && |v.heads| == CLASS_COUNT
      && x + 3 < |v.mem| && v.mem[x + 2] + 3 < |v.mem| && v.mem[x + 3] + 3 < |v.mem|
      && var r := Removed(v, nul, x, c);
         Represents(r, nul, b, Dropped(lists, c, i), out + {x}) && Undisturbed(b, v.mem, r.mem)
  {
    hide Filed, Linked, BitsOk, ListOf, Shape, Spells, Undisturbed;
    RemovedIsLinked(v, nul, b, lists, out, c, i);
    DroppedIsFiled(b, lists, out, c, i);
    BitsAfterDrop(v, nul, b, lists, out, c, i);
    Sizes(v, nul, b, lists, out);
    NeighboursAre(v, nul, b, lists, out, c, i);
    var x := lists.of[c][i];
    LinkWordsAreFree(v.mem, Removed(v, nul, x, c).mem, nul, b, v.mem[x + 2], v.mem[x + 3]);
  }

  // ---- What stays as it was

  /** The words from pointer ptr on hold what they held. */
  ghost predicate Kept(ptr: nat, words: nat, mem: seq<nat>, mem': seq<nat>) {
    ptr + words <= |mem| && |mem'| == |mem| && forall w :: ptr <= w < ptr + words ==> mem'[w] == mem[w]
  }

  /** No live payload of b differs between mem and mem'. */
  ghost predicate Undisturbed(b: Blocks, mem: seq<nat>, mem': seq<nat>) {
    forall p: nat, words: nat :: IsLive(b, p, words) ==> Kept(p, words, mem, mem')
  }

  /** Changing link words of free blocks, or of null_blk, changes no header and no live payload. */
  lemma LinkWordsAreFree(mem: seq<nat>, mem': seq<nat>, nul: nat, b: Blocks, x: nat, y: nat)
    requires Shape(b, |mem|, nul) && Spells(mem, b) && |mem'| == |mem|
    requires x == nul || (x in b && b[x].free)
    requires y == nul || (y in b && b[y].free)
    requires forall w :: 0 <= w < |mem| && mem'[w] != mem[w] ==> w == x + 2 || w == x + 3 || w == y + 2 || w == y + 3
    ensures Spells(mem', b) && Undisturbed(b, mem, mem')
  {
    assert x in b ==> Placed(b, x, |mem|, nul);
    assert y in b ==> Placed(b, y, |mem|, nul);
    assert Spells(mem', b) by {
      hide Shape, Spells, IsHeader;
      InsideIsNoHeader(b, |mem|, nul, x, x + 2);
      InsideIsNoHeader(b, |mem|, nul, x, x + 3);
      InsideIsNoHeader(b, |mem|, nul, y, y + 2);
      InsideIsNoHeader(b, |mem|, nul, y, y + 3);
      SpellsFrame(mem, mem', b);
    }
    forall p: nat, words: nat | IsLive(b, p, words)
      ensures Kept(p, words, mem, mem')
    {
      assert Placed(b, p - OVERHEAD, |mem|, nul);
    }
  }

  /** Header words may change without changing links or live payloads. */
  lemma HeadersMayChange(v: Words, mem: seq<nat>, nul: nat, b: Blocks, lists: Lists, out: set<nat>)
    requires |mem| == |v.mem| && Shape(b, |mem|, nul) && Filed(b, lists, out) && Linked(v.mem, v.heads, nul, lists)
    requires forall w :: 0 <= w < |mem| && mem[w] != v.mem[w] ==> IsHeader(b, w)
    ensures Linked(mem, v.heads, nul, lists) && Undisturbed(b, v.mem, mem)
  {
    hide ListOf;
    forall c | 0 <= c < CLASS_COUNT
      ensures Chained(mem, nul, lists.of[c])
    {
      var l := lists.of[c];
      assert Chained(v.mem, nul, l);
      forall i | 0 <= i < |l|
        ensures Link(mem, nul, l, i)
      {
        assert Link(v.mem, nul, l, i) && Member(b, l[i], c, out);
        assert Placed(b, l[i], |mem|, nul);
        InsideIsNoHeader(b, |mem|, nul, l[i], l[i] + 2);
        InsideIsNoHeader(b, |mem|, nul, l[i], l[i] + 3);
      }
    }
    forall p: nat, words: nat | IsLive(b, p, words)
      ensures Kept(p, words, v.mem, mem)
    {
      assert Placed(b, p - OVERHEAD, |mem|, nul);
      forall w | p <= w < p + words
        ensures mem[w] == v.mem[w]
      {
        InsideIsNoHeader(b, |mem|, nul, p - OVERHEAD, w);
      }
    }
  }

  /** Writes to the payload of a live block leave the heap and all other payloads alone. */
  lemma PayloadMayChange(v: Words, mem: seq<nat>, nul: nat, b: Blocks, lists: Lists, out: set<nat>, a: nat)
    requires Represents(v, nul, b, lists, out) && |mem| == |v.mem| && a in b && !b[a].free
    requires forall w :: 0 <= w < |mem| && mem[w] != v.mem[w] ==> a + OVERHEAD <= w < End(b, a)
    ensures Represents(v.(mem := mem), nul, b, lists, out)
    ensures forall p: nat, words: nat :: IsLive(b, p, words) && p != a + OVERHEAD ==> Kept(p, words, v.mem, mem)
  {
    hide ListOf, BitsOk;
    forall w | 0 <= w < |mem| && mem[w] != v.mem[w]
      ensures !IsHeader(b, w)
    {
      InsideIsNoHeader(b, |mem|, nul, a, w);
    }
    SpellsFrame(v.mem, mem, b);
    forall c | 0 <= c < CLASS_COUNT
      ensures Chained(mem, nul, lists.of[c])
    {
      var l := lists.of[c];
      assert Chained(v.mem, nul, l);
      forall i | 0 <= i < |l|
        ensures Link(mem, nul, l, i)
      {
        assert Link(v.mem, nul, l, i) && Member(b, l[i], c, out);
        assert Placed(b, l[i], |mem|, nul);
      }
    }
    forall p: nat, words: nat | IsLive(b, p, words) && p != a + OVERHEAD
      ensures Kept(p, words, v.mem, mem)
    {
      assert Placed(b, p - OVERHEAD, |mem|, nul);
    }
  }
}
