// What the sectors of a FAT32 volume mean: the two copies of the allocation table,
// the FSInfo sector and the data area. Everything here is a function of the logical
// disk, that is, of the sequence of 512-byte sectors.
module FatDisk {
  import opened Machine

  datatype Disk = Disk(sectors: seq<Sector>) {
    function Put(s: nat, data: Sector): Disk
      requires s < |sectors|
    {
      Disk(sectors[s := data])
    }

    lemma PutTwice(s: nat, a: Sector, b: Sector)
      requires s < |sectors|
      ensures Put(s, a).Put(s, b) == Put(s, b)
    {
      assert sectors[s := a][s := b] == sectors[s := b];
    }
  }

  /** The fields of Fat that mounting computes and nothing changes afterwards. */
  datatype Geometry = Geometry(
    spc: nat,       // sectors per cluster, 1 << clust_shift
    clustCnt: nat,  // number of table entries
    infoSect: nat,
    fat0: nat,      // first sector of the active copy
    fat1: nat,      // first sector of the mirror, 0 when mirroring is off
    dataSect: nat)  // first sector of cluster 2

  const ENTRY_MOD: nat := 0x1000_0000
  const EOC: nat := 0x0fff_ffff
  const BAD: nat := 0x0fff_fff7
  const NO_SECTOR: nat := 0xffff_ffff

  const INFO_FREE: nat := 122  // word index of FsInfo.free_cnt
  const INFO_NEXT: nat := 123  // word index of FsInfo.next_free

  predicate InCopy(g: Geometry, base: nat, s: nat) {
    base <= s < base + g.clustCnt / 128
  }

  predicate CopyFits(g: Geometry, base: nat) {
    0 < base && base + g.clustCnt / 128 <= g.dataSect && !InCopy(g, base, g.infoSect)
  }

  /** The areas of the volume lie apart on a disk of n sectors, and sector numbers fit in 32 bits. */
  predicate Layout(g: Geometry, n: nat) {
    && n <= NO_SECTOR
    && 0 < g.spc
    && 128 <= g.clustCnt <= BAD && g.clustCnt % 128 == 0
    && 0 < g.infoSect < g.dataSect
    && CopyFits(g, g.fat0)
    && (g.fat1 != 0 ==> CopyFits(g, g.fat1) && (g.fat1 + g.clustCnt / 128 <= g.fat0 || g.fat0 + g.clustCnt / 128 <= g.fat1))
    && g.dataSect + (g.clustCnt - 2) * g.spc <= n
  }

  /** The bounds that hold in every layout. */
  lemma LayoutBounds(g: Geometry, n: nat)
    requires Layout(g, n)
    ensures 128 <= g.clustCnt <= BAD < ENTRY_MOD < WORD_MOD && g.infoSect < g.dataSect && 0 < g.spc && n <= NO_SECTOR
  {
  }

  // ---- The allocation table

  predicate TableFits(g: Geometry, L: Disk) {
    Layout(g, |L.sectors|) && g.dataSect < |L.sectors|
  }

  predicate IsCopy(g: Geometry, base: nat) {
    base == g.fat0 || (base == g.fat1 && g.fat1 != 0)
  }

  /** All 32 bits of entry c in the copy that starts at sector base. */
  function Raw(g: Geometry, L: Disk, base: nat, c: nat): (w: nat)
    requires TableFits(g, L) && IsCopy(g, base) && c < g.clustCnt
    ensures w < WORD_MOD
  {
    Word(L.sectors[base + c / 128], c % 128)
  }

  /** The 28 bits of entry c that FAT32 uses. */
  function Entry(g: Geometry, L: Disk, c: nat): (v: nat)
    requires TableFits(g, L) && c < g.clustCnt
    ensures v < ENTRY_MOD
  {
    Raw(g, L, g.fat0, c) % ENTRY_MOD
  }

  function Table(g: Geometry, L: Disk): (t: seq<nat>)
    requires TableFits(g, L)
    ensures |t| == g.clustCnt
  {
    seq(g.clustCnt, c requires 0 <= c < g.clustCnt => Entry(g, L, c))
  }

  /** The mirror agrees with the active copy on the 28 bits that matter. */
  ghost predicate Mirrored(g: Geometry, L: Disk)
    requires TableFits(g, L)
  {
    g.fat1 != 0 ==> forall c :: 0 <= c < g.clustCnt ==> Raw(g, L, g.fat1, c) % ENTRY_MOD == Entry(g, L, c)
  }

  /** The upper nibble of the old word with the lower 28 bits of v. */
  function Merge(raw: nat, v: nat): (w: nat)
    requires raw < WORD_MOD
    ensures w < WORD_MOD
    ensures w % ENTRY_MOD == v % ENTRY_MOD
    ensures w / ENTRY_MOD == raw / ENTRY_MOD
  {
    raw / ENTRY_MOD * ENTRY_MOD + v % ENTRY_MOD
  }

  function PutRaw(g: Geometry, L: Disk, base: nat, c: nat, v: nat): (r: Disk)
    requires TableFits(g, L) && IsCopy(g, base) && c < g.clustCnt
    ensures |r.sectors| == |L.sectors|
  {
    var s := base + c / 128;
    L.Put(s, WithWord(L.sectors[s], c % 128, Merge(Raw(g, L, base, c), v)))
  }

  /** The logical disk after put_fat: the mirror first, then the active copy. */
  function PutEntry(g: Geometry, L: Disk, c: nat, v: nat): (r: Disk)
    requires TableFits(g, L) && c < g.clustCnt
    ensures |r.sectors| == |L.sectors|
  {
    PutRaw(g, if g.fat1 != 0 then PutRaw(g, L, g.fat1, c, v) else L, g.fat0, c, v)
  }

  lemma RawOfPutRaw(g: Geometry, L: Disk, base: nat, c: nat, v: nat, base': nat, c': nat)
    requires TableFits(g, L) && IsCopy(g, base) && IsCopy(g, base') && c < g.clustCnt && c' < g.clustCnt
    ensures Raw(g, PutRaw(g, L, base, c, v), base', c') ==
            if base' == base && c' == c then Merge(Raw(g, L, base, c), v) else Raw(g, L, base', c')
  {
    hide Word, WithWord;
    var s := base + c / 128;
    var s' := base' + c' / 128;
    assert InCopy(g, base, s) && InCopy(g, base', s');
    if s == s' {
      assert base == base';
      assert c / 128 == c' / 128;
      var merged := Merge(Raw(g, L, base, c), v);
      assert PutRaw(g, L, base, c, v).sectors[s] == WithWord(L.sectors[s], c % 128, merged);
      WordWithWord(L.sectors[s], c % 128, merged, c' % 128);
    }
  }

  /** One put_fat changes the low 28 bits of one entry in both copies, and nothing else on the disk. */
  lemma PutEntryEffect(g: Geometry, L: Disk, c: nat, v: nat)
    requires TableFits(g, L) && c < g.clustCnt
    ensures Table(g, PutEntry(g, L, c, v)) == Table(g, L)[c := v % ENTRY_MOD]
    ensures Mirrored(g, L) ==> Mirrored(g, PutEntry(g, L, c, v))
    ensures forall base, d :: IsCopy(g, base) && 0 <= d < g.clustCnt ==>
              Raw(g, PutEntry(g, L, c, v), base, d) / ENTRY_MOD == Raw(g, L, base, d) / ENTRY_MOD
    ensures forall s :: 0 <= s < |L.sectors| && !InCopy(g, g.fat0, s) && (g.fat1 == 0 || !InCopy(g, g.fat1, s)) ==>
              PutEntry(g, L, c, v).sectors[s] == L.sectors[s]
  {
    var r := PutEntry(g, L, c, v);
    var m := if g.fat1 != 0 then PutRaw(g, L, g.fat1, c, v) else L;
    forall base, d | IsCopy(g, base) && 0 <= d < g.clustCnt
      ensures Raw(g, r, base, d) == if d == c then Merge(Raw(g, L, base, c), v) else Raw(g, L, base, d)
    {
      RawOfPutRaw(g, m, g.fat0, c, v, base, d);
      if g.fat1 != 0 {
        RawOfPutRaw(g, L, g.fat1, c, v, base, d);
      }
    }
    assert IsCopy(g, g.fat0);
    if g.fat1 != 0 {
      assert IsCopy(g, g.fat1);
    }
  }

  // ---- FSInfo

  /** The logical disk after sync_fs has stored the allocation hints. */
  function WithInfo(g: Geometry, L: Disk, lastUsed: nat, freeCnt: nat): (r: Disk)
    requires TableFits(g, L) && lastUsed < WORD_MOD && freeCnt < WORD_MOD
    ensures |r.sectors| == |L.sectors|
  {
    L.Put(g.infoSect, WithWord(WithWord(L.sectors[g.infoSect], INFO_NEXT, lastUsed), INFO_FREE, freeCnt))
  }

  predicate InfoIs(g: Geometry, L: Disk, lastUsed: nat, freeCnt: nat)
    requires TableFits(g, L)
  {
    Word(L.sectors[g.infoSect], INFO_NEXT) == lastUsed && Word(L.sectors[g.infoSect], INFO_FREE) == freeCnt
  }

  lemma WithInfoEffect(g: Geometry, L: Disk, lastUsed: nat, freeCnt: nat)
    requires TableFits(g, L) && lastUsed < WORD_MOD && freeCnt < WORD_MOD
    ensures var r := WithInfo(g, L, lastUsed, freeCnt);
      InfoIs(g, r, lastUsed, freeCnt) && Table(g, r) == Table(g, L) && (Mirrored(g, L) ==> Mirrored(g, r))
  {
    hide Word, WithWord;
    var r := WithInfo(g, L, lastUsed, freeCnt);
    var half := WithWord(L.sectors[g.infoSect], INFO_NEXT, lastUsed);
    WordWithWord(L.sectors[g.infoSect], INFO_NEXT, lastUsed, INFO_NEXT);
    WordWithWord(half, INFO_FREE, freeCnt, INFO_FREE);
    WordWithWord(half, INFO_FREE, freeCnt, INFO_NEXT);
    forall base: nat, c: nat | IsCopy(g, base) && c < g.clustCnt
      ensures Raw(g, r, base, c) == Raw(g, L, base, c)
    {
      assert InCopy(g, base, base + c / 128);
    }
    assert IsCopy(g, g.fat0);
    assert forall c :: 0 <= c < g.clustCnt ==> Entry(g, r, c) == Entry(g, L, c);
  }

  // ---- The data area

  predicate IsCluster(g: Geometry, c: nat) {
    2 <= c < g.clustCnt
  }

  function ClustToSect(g: Geometry, c: nat): (s: nat)
    requires 2 <= c
    ensures g.dataSect <= s
  {
    MulMono(0, c - 2, g.spc);
    (c - 2) * g.spc + g.dataSect
  }

  function SectToClust(g: Geometry, s: nat): (c: nat)
    requires 0 < g.spc && g.dataSect <= s
    ensures 2 <= c
  {
    (s - g.dataSect) / g.spc + 2
  }

  lemma MulMono(a: int, b: int, n: int)
    requires a <= b && 0 <= n
    ensures a * n <= b * n
  {
  }

  lemma QuotientIsUnique(k: int, m: int, q: int, r: int, n: int)
    requires 0 <= m < n && 0 <= r < n && k * n + m == q * n + r
    ensures k == q && m == r
  {
    if k != q {
      MulMono(1, if k < q then q - k else k - q, n);
      assert false;
    }
  }

  lemma DivModUnique(q: nat, r: nat, n: nat)
    requires r < n
    ensures (q * n + r) / n == q && (q * n + r) % n == r
  {
    var x := q * n + r;
    QuotientIsUnique(x / n, x % n, q, r, n);
  }

  /** Block q of n, at offset i: below any number of blocks that includes it, and q and i are unique. */
  lemma BlockOffset(q: nat, i: nat, n: nat, blocks: nat)
    requires i < n && q < blocks
    ensures q * n + i < blocks * n
    ensures (q * n + i) / n == q && (q * n + i) % n == i
  {
    MulMono(q + 1, blocks, n);
    assert (q + 1) * n == q * n + n;
    DivModUnique(q, i, n);
  }

  /** The sectors of a cluster lie in the data area, and the sector number tells the cluster. */
  lemma ClusterSector(g: Geometry, n: nat, c: nat, i: nat)
    requires Layout(g, n) && IsCluster(g, c) && i < g.spc
    ensures g.dataSect <= ClustToSect(g, c) + i < n
    ensures SectToClust(g, ClustToSect(g, c) + i) == c
    ensures (ClustToSect(g, c) + i - g.dataSect) % g.spc == i
  {
    BlockOffset(c - 2, i, g.spc, g.clustCnt - 2);
    assert ClustToSect(g, c) + i - g.dataSect == (c - 2) * g.spc + i;
  }

  /** A cluster lies on a disk of n sectors exactly if its number is below the count that the data area has room for. */
  lemma ClusterOnDisk(g: Geometry, n: nat, c: nat)
    requires 0 < g.spc && g.dataSect <= n && 2 <= c
    ensures ClustToSect(g, c) + g.spc <= n <==> c < 2 + (n - g.dataSect) / g.spc
  {
    var room := n - g.dataSect;
    var q, r := room / g.spc, room % g.spc;
    assert (c - 2) * g.spc + g.spc == (c - 1) * g.spc;
    if c - 1 <= q {
      MulMono(c - 1, q, g.spc);
    } else {
      MulMono(q + 1, c - 1, g.spc);
      assert (q + 1) * g.spc == q * g.spc + g.spc;
    }
  }

  /** So every entry of the table stands for a cluster on the disk exactly if the table is not longer than that. */
  lemma TableOnDisk(g: Geometry, n: nat)
    requires 0 < g.spc && g.dataSect <= n && 2 < g.clustCnt
    ensures (forall c: nat :: IsCluster(g, c) ==> ClustToSect(g, c) + g.spc <= n) <==> g.clustCnt <= 2 + (n - g.dataSect) / g.spc
  {
    var last: nat := g.clustCnt - 1;
    forall c: nat | IsCluster(g, c)
      ensures ClustToSect(g, c) + g.spc <= n <==> c < 2 + (n - g.dataSect) / g.spc
    {
      ClusterOnDisk(g, n, c);
    }
    assert IsCluster(g, last);
  }

  /** Nothing in the data area differs. */
  ghost predicate SameData(g: Geometry, L: Disk, r: Disk) {
    |L.sectors| == |r.sectors| && forall s :: g.dataSect <= s < |L.sectors| ==> L.sectors[s] == r.sectors[s]
  }

  /** What every change to the allocation table and its hints keeps: the data area and the mirror. */
  ghost predicate Kept(g: Geometry, L: Disk, r: Disk)
    requires TableFits(g, L)
  {
    SameData(g, L, r) && (Mirrored(g, L) ==> Mirrored(g, r))
  }

  lemma KeptReflexive(g: Geometry, L: Disk)
    requires TableFits(g, L)
    ensures Kept(g, L, L)
  {
  }

  lemma KeptTransitive(g: Geometry, L: Disk, m: Disk, r: Disk)
    requires TableFits(g, L) && Kept(g, L, m) && Kept(g, m, r)
    ensures Kept(g, L, r)
  {
    hide Mirrored;
  }

  lemma PutEntryKeeps(g: Geometry, L: Disk, c: nat, v: nat)
    requires TableFits(g, L) && c < g.clustCnt
    ensures Kept(g, L, PutEntry(g, L, c, v))
    ensures Table(g, PutEntry(g, L, c, v)) == Table(g, L)[c := v % ENTRY_MOD]
  {
    hide PutEntry, Mirrored;
    PutEntryEffect(g, L, c, v);
  }

  lemma WithInfoKeeps(g: Geometry, L: Disk, lastUsed: nat, freeCnt: nat)
    requires TableFits(g, L) && lastUsed < WORD_MOD && freeCnt < WORD_MOD
    ensures var r := WithInfo(g, L, lastUsed, freeCnt);
      Kept(g, L, r) && Table(g, r) == Table(g, L) && InfoIs(g, r, lastUsed, freeCnt)
  {
    hide Mirrored, InfoIs;
    WithInfoEffect(g, L, lastUsed, freeCnt);
  }

  // ---- Clearing a cluster

  function Zeros(): (z: Sector)
    ensures forall i :: 0 <= i < 512 ==> z[i] == 0
  {
    seq(512, _ => 0)
  }

  /** From L to r the first n sectors of cluster c have been cleared, and nothing else has changed. */
  ghost predicate ClearedUpTo(g: Geometry, L: Disk, r: Disk, c: nat, n: nat)
    requires 2 <= c
  {
    && |r.sectors| == |L.sectors|
    && forall s :: 0 <= s < |L.sectors| ==>
         r.sectors[s] == if ClustToSect(g, c) <= s < ClustToSect(g, c) + n then Zeros() else L.sectors[s]
  }

  /** The allocation table lies in front of the data area. */
  lemma TableFrame(g: Geometry, L: Disk, r: Disk)
    requires TableFits(g, L) && |r.sectors| == |L.sectors| && forall s :: 0 <= s < g.dataSect ==> r.sectors[s] == L.sectors[s]
    ensures TableFits(g, r) && Table(g, r) == Table(g, L) && (Mirrored(g, r) <==> Mirrored(g, L))
  {
    hide Word;
    forall base: nat, c: nat | IsCopy(g, base) && c < g.clustCnt
      ensures Raw(g, r, base, c) == Raw(g, L, base, c)
    {
      assert InCopy(g, base, base + c / 128);
    }
    assert IsCopy(g, g.fat0);
    assert forall c :: 0 <= c < g.clustCnt ==> Entry(g, r, c) == Entry(g, L, c);
  }

  lemma ClearedTable(g: Geometry, L: Disk, r: Disk, c: nat, n: nat)
    requires TableFits(g, L) && 2 <= c && ClearedUpTo(g, L, r, c, n)
    ensures TableFits(g, r) && Table(g, r) == Table(g, L) && (Mirrored(g, r) <==> Mirrored(g, L))
  {
    hide Table, Mirrored, Layout;
    TableFrame(g, L, r);
  }
}
