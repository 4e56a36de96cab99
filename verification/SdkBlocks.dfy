// The SDK heap as a list of blocks: first fit, splitting and coalescing on values.
module SdkBlocks {
  /** A block of the pool: the 32-bit words of its payload and whether it is in use. */
  datatype Block = Block(words: nat, used: bool)

  const HDR: nat := 2  // words of a header

  /** The word index at which block i begins. */
  function Pos(b: seq<Block>, i: nat): (p: nat)
    requires i <= |b|
  {
    if i == 0 then 0 else Pos(b, i - 1) + HDR + b[i - 1].words
  }

  /** The byte offset that malloc returns for block i. */
  function Ptr(b: seq<Block>, i: nat): nat
    requires i <= |b|
  {
    4 * (Pos(b, i) + HDR)
  }

  lemma {:induction false} PosMonotone(b: seq<Block>, i: nat, j: nat)
    requires i < j <= |b|
    ensures Pos(b, i) + HDR + b[i].words <= Pos(b, j)
    decreases j
  {
    if i < j - 1 {
      PosMonotone(b, i, j - 1);
    }
  }

  lemma {:induction false} PosPrefix(b: seq<Block>, c: seq<Block>, i: nat)
    requires i <= |b| && i <= |c| && b[..i] == c[..i]
    ensures Pos(b, i) == Pos(c, i)
  {
    if i > 0 {
      assert b[..i - 1] == b[..i][..i - 1] == c[..i][..i - 1] == c[..i - 1];
      assert b[i - 1] == b[..i][i - 1] == c[..i][i - 1] == c[i - 1];
      PosPrefix(b, c, i - 1);
    }
  }

  /** Behind equal positions, equal blocks have equal positions. */
  lemma {:induction false} PosSuffix(b: seq<Block>, i: nat, c: seq<Block>, j: nat, n: nat)
    requires i + n <= |b| && j + n <= |c| && Pos(b, i) == Pos(c, j)
    requires b[i..i + n] == c[j..j + n]
    ensures Pos(b, i + n) == Pos(c, j + n)
    decreases n
  {
    if n > 0 {
      assert b[i..i + (n - 1)] == b[i..i + n][..n - 1] == c[j..j + n][..n - 1] == c[j..j + (n - 1)];
      assert b[i + (n - 1)] == b[i..i + n][n - 1] == c[j..j + n][n - 1] == c[j + (n - 1)];
      PosSuffix(b, i, c, j, n - 1);
    }
  }

  /** Positions in a list and in its tail. */
  lemma {:induction false} PosShift(b: seq<Block>, i: nat)
    requires 0 < |b| && i < |b|
    ensures Pos(b, i + 1) == HDR + b[0].words + Pos(b[1..], i)
  {
    if i > 0 {
      PosShift(b, i - 1);
    }
  }

  // ---- The invariant

  ghost predicate NoAdjacentFree(b: seq<Block>) {
    forall i :: 0 <= i < |b| - 1 ==> NotBothFree(b, i)
  }

  predicate NotBothFree(b: seq<Block>, i: nat) {
    i + 1 < |b| ==> b[i].used || b[i + 1].used
  }

  /** The live payloads: from the pointer malloc returned to the number of words it holds. */
  ghost predicate IsLive(b: seq<Block>, ptr: nat, words: nat) {
    exists i :: 0 <= i < |b| && b[i] == Block(words, true) && Ptr(b, i) == ptr
  }

  lemma LiveIsUnique(b: seq<Block>, i: nat, j: nat)
    requires i < |b| && j < |b| && Ptr(b, i) == Ptr(b, j)
    ensures i == j
  {
    if i < j {
      PosMonotone(b, i, j);
    } else if j < i {
      PosMonotone(b, j, i);
    }
  }

  /** Live payloads never overlap. */
  lemma LiveDisjoint(b: seq<Block>, p: nat, m: nat, q: nat, n: nat)
    requires IsLive(b, p, m) && IsLive(b, q, n) && p != q
    ensures p + 4 * m <= q || q + 4 * n <= p
  {
    var i :| 0 <= i < |b| && b[i] == Block(m, true) && Ptr(b, i) == p;
    var j :| 0 <= j < |b| && b[j] == Block(n, true) && Ptr(b, j) == q;
    if i < j {
      PosMonotone(b, i, j);
    } else {
      PosMonotone(b, j, i);
    }
  }

  // ---- Allocation

  predicate Fits(b: Block, n: nat) { !b.used && b.words >= n }

  /** Block i after n words have been taken from it: the rest becomes a block if it can hold a word. */
  function Taken(b: seq<Block>, i: nat, n: nat): (r: seq<Block>)
    requires i < |b| && Fits(b[i], n)
  {
    if b[i].words >= n + HDR + 1 then b[..i] + [Block(n, true), Block(b[i].words - n - HDR, false)] + b[i + 1..]
    else b[i := Block(b[i].words, true)]
  }

  lemma TakenPositions(b: seq<Block>, i: nat, n: nat)
    requires i < |b| && Fits(b[i], n)
    ensures var r := Taken(b, i, n);
      && (forall j :: 0 <= j <= i ==> Pos(r, j) == Pos(b, j))
      && (forall j :: i < j <= |b| ==> Pos(r, j + |r| - |b|) == Pos(b, j))
      && (|r| > |b| ==> Pos(r, i + 1) == Pos(b, i) + HDR + n)
  {
    var r := Taken(b, i, n);
    forall j | 0 <= j <= i
      ensures Pos(r, j) == Pos(b, j)
    {
      assert r[..j] == b[..j];
      PosPrefix(r, b, j);
    }
    var d := |r| - |b|;
    assert Pos(r, i + 1 + d) == Pos(b, i + 1);
    forall j | i < j <= |b|
      ensures Pos(r, j + d) == Pos(b, j)
    {
      PosSuffix(r, i + 1 + d, b, i + 1, j - i - 1);
    }
  }

  lemma TakenKeepsInvariant(b: seq<Block>, i: nat, n: nat)
    requires i < |b| && Fits(b[i], n) && NoAdjacentFree(b)
    ensures var r := Taken(b, i, n);
      NoAdjacentFree(r) && Pos(r, |r|) == Pos(b, |b|)
  {
    TakenPositions(b, i, n);
    var r := Taken(b, i, n);
    var d := |r| - |b|;
    forall k | 0 <= k < |r| - 1
      ensures NotBothFree(r, k)
    {
      if k + 1 < i {
        assert NotBothFree(b, k);
      } else if k > i {
        assert NotBothFree(b, k - d);
      }
    }
  }

  lemma NotLiveYet(b: seq<Block>, i: nat)
    requires i < |b| && !b[i].used
    ensures !IsLive(b, Ptr(b, i), b[i].words)
  {
    if IsLive(b, Ptr(b, i), b[i].words) {
      var j :| 0 <= j < |b| && b[j] == Block(b[i].words, true) && Ptr(b, j) == Ptr(b, i);
      LiveIsUnique(b, i, j);
    }
  }

  lemma TakenKeepsLive(b: seq<Block>, i: nat, n: nat, ptr: nat, words: nat)
    requires i < |b| && Fits(b[i], n) && IsLive(b, ptr, words)
    ensures IsLive(Taken(b, i, n), ptr, words)
  {
    hide Pos;
    TakenPositions(b, i, n);
    var r := Taken(b, i, n);
    var j :| 0 <= j < |b| && b[j] == Block(words, true) && Ptr(b, j) == ptr;
    var j' := if j < i then j else j + |r| - |b|;
    assert r[j'] == b[j] && Ptr(r, j') == ptr;
  }

  lemma TakenAddsOnly(b: seq<Block>, i: nat, n: nat, ptr: nat, words: nat)
    requires i < |b| && Fits(b[i], n) && IsLive(Taken(b, i, n), ptr, words)
    ensures IsLive(b, ptr, words) || (ptr == Ptr(b, i) && words == Taken(b, i, n)[i].words)
  {
    hide Pos;
    TakenPositions(b, i, n);
    var r := Taken(b, i, n);
    var j :| 0 <= j < |r| && r[j] == Block(words, true) && Ptr(r, j) == ptr;
    if j != i {
      var j' := if j < i then j else j - (|r| - |b|);
      assert b[j'] == r[j] && Ptr(b, j') == ptr;
    }
  }

  /** Allocation adds one live payload, of at least the requested size, and keeps all others. */
  lemma TakenLive(b: seq<Block>, i: nat, n: nat, ptr: nat, words: nat)
    requires i < |b| && Fits(b[i], n)
    ensures var r := Taken(b, i, n);
      && r[i].used && n <= r[i].words <= n + HDR && !IsLive(b, Ptr(b, i), b[i].words)
      && (IsLive(r, ptr, words) <==> IsLive(b, ptr, words) || (ptr == Ptr(b, i) && words == r[i].words))
  {
    hide Pos;
    var r := Taken(b, i, n);
    TakenPositions(b, i, n);
    NotLiveYet(b, i);
    assert Ptr(r, i) == Ptr(b, i) && r[i] == Block(r[i].words, true);
    if IsLive(b, ptr, words) {
      TakenKeepsLive(b, i, n, ptr, words);
    } else if IsLive(r, ptr, words) {
      TakenAddsOnly(b, i, n, ptr, words);
    }
  }

  // ---- Coalescing

  function Join(a: Block, b: Block): Block {
    Block(a.words + HDR + b.words, false)
  }

  /** The pass of free over the pool: each free block swallows the free blocks behind it. */
  function Merge(b: seq<Block>): (r: seq<Block>)
    decreases |b|
  {
    if |b| < 2 then b
    else if !b[0].used && !b[1].used then Merge([Join(b[0], b[1])] + b[2..])
    else [b[0]] + Merge(b[1..])
  }

  /** The tail of a list with no adjacent free blocks, and such a list put together again. */
  lemma NoAdjacentFreeCons(b: seq<Block>)
    requires 0 < |b|
    ensures NoAdjacentFree(b) <==> NoAdjacentFree(b[1..]) && NotBothFree(b, 0)
  {
    if NoAdjacentFree(b) {
      forall i | 0 <= i < |b[1..]| - 1
        ensures NotBothFree(b[1..], i)
      {
        assert NotBothFree(b, i + 1);
      }
    }
    if NoAdjacentFree(b[1..]) && NotBothFree(b, 0) {
      forall i | 0 <= i < |b| - 1
        ensures NotBothFree(b, i)
      {
        assert i > 0 ==> NotBothFree(b[1..], i - 1);
      }
    }
  }

  /** The words that a list of blocks covers, headers included. */
  function Total(b: seq<Block>): nat { Pos(b, |b|) }

  lemma JoinPositions(b: seq<Block>)
    requires 2 <= |b|
    ensures var c := [Join(b[0], b[1])] + b[2..];
      Pos(c, 1) == Pos(b, 2) && Total(c) == Total(b)
  {
    var c := [Join(b[0], b[1])] + b[2..];
    assert Pos(b, 1) == HDR + b[0].words && Pos(c, 1) == HDR + c[0].words;
    assert c[1..1 + (|b| - 2)] == b[2..2 + (|b| - 2)];
    PosSuffix(c, 1, b, 2, |b| - 2);
  }

  /** Coalescing keeps the pool tiled and leaves no two free neighbours, whatever it started from. */
  lemma {:induction false} MergeKeepsInvariant(b: seq<Block>)
    ensures NoAdjacentFree(Merge(b)) && Total(Merge(b)) == Total(b)
    ensures |b| > 0 ==> |Merge(b)| > 0 && Merge(b)[0].used == b[0].used
    decreases |b|
  {
    if |b| >= 2 {
      if !b[0].used && !b[1].used {
        JoinPositions(b);
        MergeKeepsInvariant([Join(b[0], b[1])] + b[2..]);
      } else {
        var r := Merge(b);
        MergeKeepsInvariant(b[1..]);
        assert r[1..] == Merge(b[1..]);
        NoAdjacentFreeCons(r);
        PosShift(b, |b| - 1);
        PosShift(r, |r| - 1);
      }
    }
  }

  lemma LiveCons(b: seq<Block>, ptr: nat, words: nat)
    requires 0 < |b|
    ensures IsLive(b, ptr, words) <==>
            (b[0] == Block(words, true) && ptr == 4 * HDR)
            || (ptr >= 4 * (HDR + b[0].words) && IsLive(b[1..], ptr - 4 * (HDR + b[0].words), words))
  {
    if IsLive(b, ptr, words) {
      var i :| 0 <= i < |b| && b[i] == Block(words, true) && Ptr(b, i) == ptr;
      if i > 0 {
        PosShift(b, i - 1);
        assert b[1..][i - 1] == b[i] && Ptr(b[1..], i - 1) == ptr - 4 * (HDR + b[0].words);
      }
    }
    if ptr >= 4 * (HDR + b[0].words) && IsLive(b[1..], ptr - 4 * (HDR + b[0].words), words) {
      var i :| 0 <= i < |b[1..]| && b[1..][i] == Block(words, true) && Ptr(b[1..], i) == ptr - 4 * (HDR + b[0].words);
      PosShift(b, i);
      assert b[i + 1] == Block(words, true) && Ptr(b, i + 1) == ptr;
    }
    if b[0] == Block(words, true) && ptr == 4 * HDR {
      assert Ptr(b, 0) == ptr;
    }
  }

  /** Coalescing neither moves, creates nor destroys a live payload. */
  lemma {:induction false} MergeKeepsLive(b: seq<Block>, ptr: nat, words: nat)
    ensures IsLive(Merge(b), ptr, words) <==> IsLive(b, ptr, words)
    decreases |b|
  {
    if |b| >= 2 {
      hide IsLive;
      if !b[0].used && !b[1].used {
        var c := [Join(b[0], b[1])] + b[2..];
        MergeKeepsLive(c, ptr, words);
        LiveCons(c, ptr, words);
        LiveCons(b, ptr, words);
        if ptr >= 4 * (HDR + b[0].words) {
          LiveCons(b[1..], ptr - 4 * (HDR + b[0].words), words);
        }
        assert c[1..] == b[2..] == b[1..][1..];
      } else {
        var r := Merge(b);
        assert r[1..] == Merge(b[1..]) && r[0] == b[0];
        LiveCons(r, ptr, words);
        LiveCons(b, ptr, words);
        if ptr >= 4 * (HDR + b[0].words) {
          MergeKeepsLive(b[1..], ptr - 4 * (HDR + b[0].words), words);
        }
      }
    }
  }

  lemma {:induction false} MergeOfMerged(b: seq<Block>)
    requires NoAdjacentFree(b)
    ensures Merge(b) == b
    decreases |b|
  {
    if |b| >= 2 {
      NoAdjacentFreeCons(b);
      MergeOfMerged(b[1..]);
    }
  }

  // ---- Freeing

  /** Block i given back. */
  function Released(b: seq<Block>, i: nat): seq<Block>
    requires i < |b|
  {
    Merge(b[i := Block(b[i].words, false)])
  }

  /** Freeing a live payload removes just that one. */
  lemma ReleasedLive(b: seq<Block>, i: nat, ptr: nat, words: nat)
    requires i < |b| && b[i].used
    ensures IsLive(Released(b, i), ptr, words) <==> IsLive(b, ptr, words) && ptr != Ptr(b, i)
  {
    var c := b[i := Block(b[i].words, false)];
    MergeKeepsLive(c, ptr, words);
    SamePositions(b, c);
    if IsLive(c, ptr, words) {
      var j :| 0 <= j < |c| && c[j] == Block(words, true) && Ptr(c, j) == ptr;
      assert b[j] == c[j];
      if Ptr(b, j) == Ptr(b, i) {
        LiveIsUnique(b, i, j);
      }
    }
    if IsLive(b, ptr, words) && ptr != Ptr(b, i) {
      var j :| 0 <= j < |b| && b[j] == Block(words, true) && Ptr(b, j) == ptr;
      assert c[j] == b[j];
    }
  }

  lemma SamePositions(b: seq<Block>, c: seq<Block>)
    requires |b| == |c| && forall i :: 0 <= i < |b| ==> b[i].words == c[i].words
    ensures forall i :: 0 <= i <= |b| ==> Pos(c, i) == Pos(b, i)
  {
    forall i | 0 <= i <= |b|
      ensures Pos(c, i) == Pos(b, i)
    {
      SamePosition(b, c, i);
    }
  }

  lemma {:induction false} SamePosition(b: seq<Block>, c: seq<Block>, i: nat)
    requires |b| == |c| && i <= |b| && forall i :: 0 <= i < |b| ==> b[i].words == c[i].words
    ensures Pos(c, i) == Pos(b, i)
  {
    if i > 0 {
      SamePosition(b, c, i - 1);
    }
  }

  /** malloc followed by free of its result restores the list of blocks. */
  lemma {:induction false} TakeThenRelease(b: seq<Block>, i: nat, n: nat)
    requires i < |b| && Fits(b[i], n) && NoAdjacentFree(b)
    ensures Released(Taken(b, i, n), i) == b
    decreases i
  {
    var r := Taken(b, i, n);
    var f := r[i := Block(r[i].words, false)];
    if |r| == |b| {
      assert f == b;
      MergeOfMerged(b);
    } else if i == 0 {
      assert [Join(f[0], f[1])] + f[2..] == b;
      MergeOfMerged(b);
    } else {
      NoAdjacentFreeCons(b);
      assert Taken(b[1..], i - 1, n) == r[1..];
      assert f[1..] == r[1..][i - 1 := Block(r[i].words, false)];
      TakeThenRelease(b[1..], i - 1, n);
      assert NotBothFree(b, 0);
      assert b == [b[0]] + b[1..];
    }
  }

  function UsedCount(b: seq<Block>): (n: nat)
    ensures n <= |b|
  {
    if b == [] then 0 else (if b[0].used then 1 else 0) + UsedCount(b[1..])
  }

  lemma {:induction false} MergeKeepsUsedCount(b: seq<Block>)
    ensures UsedCount(Merge(b)) == UsedCount(b)
    decreases |b|
  {
    if |b| >= 2 {
      if !b[0].used && !b[1].used {
        var c := [Join(b[0], b[1])] + b[2..];
        MergeKeepsUsedCount(c);
        assert c[1..] == b[2..] == b[1..][1..];
      } else {
        MergeKeepsUsedCount(b[1..]);
      }
    }
  }

  lemma {:induction false} UsedCountUpdate(b: seq<Block>, i: nat)
    requires i < |b| && b[i].used
    ensures UsedCount(b[i := Block(b[i].words, false)]) == UsedCount(b) - 1
    decreases i
  {
    var c := b[i := Block(b[i].words, false)];
    if i == 0 {
      assert c[1..] == b[1..];
    } else {
      assert c[1..] == b[1..][i - 1 := Block(b[i].words, false)];
      UsedCountUpdate(b[1..], i - 1);
    }
  }

  lemma {:induction false} NoneUsed(b: seq<Block>, i: nat)
    requires UsedCount(b) == 0 && i < |b|
    ensures !b[i].used
    decreases i
  {
    if i > 0 {
      NoneUsed(b[1..], i - 1);
    }
  }

  /** A pool in order without live payloads is one free block. */
  lemma AllFreeIsOneBlock(b: seq<Block>)
    requires NoAdjacentFree(b) && UsedCount(b) == 0 && 0 < |b|
    ensures b == [Block(Total(b) - HDR, false)]
  {
    if |b| > 1 {
      NoneUsed(b, 0);
      NoneUsed(b, 1);
    }
    assert NotBothFree(b, 0);
    assert Pos(b, 1) == HDR + b[0].words;
  }

  /** A run of frees of live blocks, in any order, that ends with none live: the pool is whole again. */
  lemma {:induction false} FreeAllRestores(states: seq<seq<Block>>, freed: seq<nat>)
    requires |states| == |freed| + 1 && NoAdjacentFree(states[0]) && 0 < |states[0]| && |freed| == UsedCount(states[0])
    requires forall k :: 0 <= k < |freed| ==> Frees(states, freed, k)
    ensures states[|freed|] == [Block(Total(states[0]) - HDR, false)]
  {
    for k := 0 to |freed|
      invariant NoAdjacentFree(states[k]) && 0 < |states[k]| && Total(states[k]) == Total(states[0])
      invariant UsedCount(states[k]) == |freed| - k
    {
      assert Frees(states, freed, k);
      var b, i := states[k], freed[k];
      var c := b[i := Block(b[i].words, false)];
      SamePositions(b, c);
      MergeKeepsInvariant(c);
      MergeKeepsUsedCount(c);
      UsedCountUpdate(b, i);
    }
    AllFreeIsOneBlock(states[|freed|]);
  }

  ghost predicate Frees(states: seq<seq<Block>>, freed: seq<nat>, k: nat) {
    && k < |freed| && k + 1 < |states|
    && freed[k] < |states[k]| && states[k][freed[k]].used
    && states[k + 1] == Released(states[k], freed[k])
  }
}
