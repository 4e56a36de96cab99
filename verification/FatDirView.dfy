// A directory on the disk: the 32-byte records in the clusters of its chain, and where the
// directory cursor finds them.
module FatDirView {
  import opened Machine
  import opened FatDisk
  import opened FatChains
  import opened FatFileView
  import opened FatDirectory

  /** What the directory code relies on: the volume in order, and a data area aligned to whole clusters. */
  ghost predicate DirOk(g: Geometry, L: Disk, q: seq<nat>) {
    && TableFits(g, L) && 0 < g.spc && g.dataSect % g.spc == 0
    && EntriesOk(Table(g, L)) && IsChain(Table(g, L), q) && OnVolume(g, q)
  }

  datatype Listing = Listing(of: seq<Slot>)

  /** The records of the directory, in order. */
  ghost function Records(g: Geometry, L: Disk, q: seq<nat>): (d: seq<Slot>)
    requires TableFits(g, L) && OnVolume(g, q)
  {
    SlotsOf(FileBytes(g, L, q))
  }

  function SlotsOf(b: seq<byte>): (d: seq<Slot>)
    ensures |d| == |b| / 32
  {
    seq(|b| / 32, k requires 0 <= k < |b| / 32 => b[32 * k..32 * k + 32])
  }

  lemma RecordCount(g: Geometry, L: Disk, q: seq<nat>, k: nat)
    requires TableFits(g, L) && OnVolume(g, q)
    ensures k < |Records(g, L, q)| <==> Covers(g, q, 32 * k)
    ensures |FileBytes(g, L, q)| == 32 * |Records(g, L, q)|
  {
    hide FileBytes, Layout;
    var n := |q| * g.spc;
    assert FileSize(g, q) == 512 * n;
  }

  /** The cursor stands on record k. */
  ghost predicate Stands(g: Geometry, q: seq<nat>, k: nat, clust: nat, sect: nat, idx: nat)
    requires 0 < g.spc && OnVolume(g, q)
  {
    && Covers(g, q, 32 * k) && ClusterIndex(g, 32 * k) < |q|
    && clust == q[ClusterIndex(g, 32 * k)] && sect == SectorFor(g, q, 32 * k) && idx == 32 * k % 512
  }

  /** Record k is the one in that sector at that index. */
  ghost predicate Located(g: Geometry, q: seq<nat>, k: nat, sect: nat, idx: nat) {
    0 < g.spc && OnVolume(g, q) && exists c :: Stands(g, q, k, c, sect, idx)
  }

  lemma StartStands(g: Geometry, n: nat, q: seq<nat>)
    requires Layout(g, n) && OnVolume(g, q) && 0 < |q|
    ensures Stands(g, q, 0, q[0], ClustToSect(g, q[0]), 0)
  {
    hide Layout;
    LayoutBounds(g, n);
    MulMono(1, |q|, g.spc);
    assert Covers(g, q, 0);
    OffsetSector(g, q, 0);
    SectorOfBounds(g, n, q, 0);
    assert 0 / g.spc == 0 && 0 % g.spc == 0;
  }

  /** What the cursor sees of its record. */
  lemma StandsOn(g: Geometry, L: Disk, q: seq<nat>, k: nat, clust: nat, sect: nat, idx: nat)
    requires TableFits(g, L) && OnVolume(g, q) && 0 < g.spc && Stands(g, q, k, clust, sect, idx)
    ensures g.dataSect <= sect < |L.sectors| && 0 < sect && idx + 32 <= 512 && k < |Records(g, L, q)|
    ensures L.sectors[sect][idx..idx + 32] == Records(g, L, q)[k]
    ensures SectToClust(g, sect) == clust && clust in q
  {
    hide FileBytes, Layout, Covers, ClusterIndex;
    LayoutBounds(g, |L.sectors|);
    SliceWithinSector(g, L, q, 32 * k, 32);
    RecordCount(g, L, q, k);
    OffsetSector(g, q, 32 * k);
    SectorOfBounds(g, |L.sectors|, q, 32 * k / 512);
  }

  /** The place of a record tells which it is. */
  lemma StandsUnique(g: Geometry, n: nat, q: seq<nat>, j: nat, k: nat, c: nat, d: nat, sect: nat, idx: nat)
    requires Layout(g, n) && OnVolume(g, q) && 0 < g.spc && NoDuplicates(q) && Stands(g, q, j, c, sect, idx) && Stands(g, q, k, d, sect, idx)
    ensures j == k && c == d
  {
    hide Layout;
    OffsetSector(g, q, 32 * j);
    OffsetSector(g, q, 32 * k);
    SectorOfUnique(g, n, q, 32 * j / 512, 32 * k / 512);
  }

  /** A record written through the cursor's sector replaces just that record. */
  lemma PutRecord(g: Geometry, L: Disk, q: seq<nat>, k: nat, clust: nat, sect: nat, idx: nat, s: Slot)
    requires DirOk(g, L, q) && Stands(g, q, k, clust, sect, idx)
    ensures sect < |L.sectors| && idx + 32 <= 512 && k < |Records(g, L, q)|
    ensures var r := L.Put(sect, Overwrite(L.sectors[sect], idx, s));
      DirOk(g, r, q) && Table(g, r) == Table(g, L) && Records(g, r, q) == Records(g, L, q)[k := s]
  {
    hide FileBytes, Layout, Covers, IsChain, EntriesOk, Table;
    StandsOn(g, L, q, k, clust, sect, idx);
    ChainHasNoDuplicates(Table(g, L), q);
    PutWithinSector(g, L, q, 32 * k, s);
    DataPutEffect(g, L, sect, Overwrite(L.sectors[sect], idx, s));
    RecordCount(g, L, q, k);
    SlotsAfterOverwrite(FileBytes(g, L, q), k, s);
  }

  lemma SlotsAfterOverwrite(b: seq<byte>, k: nat, s: Slot)
    requires 32 * k + 32 <= |b|
    ensures SlotsOf(Overwrite(b, 32 * k, s)) == SlotsOf(b)[k := s]
  {
    var c := Overwrite(b, 32 * k, s);
    forall j | 0 <= j < |b| / 32
      ensures SlotsOf(c)[j] == SlotsOf(b)[k := s][j]
    {
      assert c[32 * j..32 * j + 32] == if j == k then s else b[32 * j..32 * j + 32];
    }
  }

  // ---- Moving on

  /** The sector after the cursor's: in the same cluster unless its number is a multiple of the cluster size. */
  lemma NextSector(g: Geometry, n: nat, q: seq<nat>, i: nat)
    requires Layout(g, n) && 0 < g.spc && g.dataSect % g.spc == 0 && OnVolume(g, q) && i < |q| * g.spc
    ensures i / g.spc < |q|
    ensures (SectorOf(g, q, i) + 1) % g.spc != 0 ==>
              i + 1 < |q| * g.spc && (i + 1) / g.spc == i / g.spc && SectorOf(g, q, i + 1) == SectorOf(g, q, i) + 1
    ensures (SectorOf(g, q, i) + 1) % g.spc == 0 ==>
              && (i + 1) / g.spc == i / g.spc + 1 && (i + 1 < |q| * g.spc <==> i / g.spc + 1 < |q|)
              && (i + 1 < |q| * g.spc ==> SectorOf(g, q, i + 1) == ClustToSect(g, q[(i + 1) / g.spc]))
  {
    hide Layout;
    SectorIndex(|q|, g.spc, i);
    AlignedSector(g, q[i / g.spc], i % g.spc);
    NextIndex(g.spc, |q|, i);
  }

  lemma NextIndex(spc: nat, n: nat, i: nat)
    requires 0 < spc && i < n * spc
    ensures var c, r := i / spc, i % spc;
      if r + 1 < spc then i + 1 < n * spc && (i + 1) / spc == c && (i + 1) % spc == r + 1 && (r + 1) % spc == r + 1
      else (i + 1) / spc == c + 1 && (i + 1) % spc == 0 && (r + 1) % spc == 0 && (i + 1 < n * spc <==> c + 1 < n)
  {
    SectorIndex(n, spc, i);
    NextInGrid(i, i / spc, i % spc, spc, n);
  }

  /** The same with quotient c and remainder r given. */
  lemma NextInGrid(i: nat, c: nat, r: nat, spc: nat, n: nat)
    requires r < spc && c < n && i == c * spc + r
    ensures if r + 1 < spc then i + 1 < n * spc && (i + 1) / spc == c && (i + 1) % spc == r + 1 && (r + 1) % spc == r + 1
      else (i + 1) / spc == c + 1 && (i + 1) % spc == 0 && (r + 1) % spc == 0 && (i + 1 < n * spc <==> c + 1 < n)
  {
    if r + 1 < spc {
      BlockOffset(c, r + 1, spc, n);
      SmallMod(r + 1, spc);
    } else {
      MulNext(c, spc);
      DivModUnique(c + 1, 0, spc);
      WholeClusters(c + 1, n, spc);
      SmallMod(0, spc);
    }
  }

  lemma MulNext(c: nat, n: nat)
    ensures (c + 1) * n == c * n + n
  {
  }

  lemma SmallMod(r: nat, n: nat)
    requires r < n
    ensures r % n == r && n % n == 0
  {
    DivModUnique(0, r, n);
    DivModUnique(1, 0, n);
  }

  lemma WholeClusters(c: nat, n: nat, spc: nat)
    requires 0 < spc
    ensures c * spc < n * spc <==> c < n
  {
    if c < n {
      MulMono(c + 1, n, spc);
    } else {
      MulMono(n, c, spc);
    }
  }

  lemma AlignedSector(g: Geometry, c: nat, r: nat)
    requires 0 < g.spc && g.dataSect % g.spc == 0 && 2 <= c && r < g.spc
    ensures (ClustToSect(g, c) + r + 1) % g.spc == (r + 1) % g.spc
  {
    var k := g.dataSect / g.spc;
    assert g.dataSect == k * g.spc + 0;
    var m := c - 2 + k;
    assert ClustToSect(g, c) == m * g.spc by {
      assert (c - 2 + k) * g.spc == (c - 2) * g.spc + k * g.spc;
    }
    if r + 1 < g.spc {
      DivModUnique(m, r + 1, g.spc);
      SmallMod(r + 1, g.spc);
    } else {
      assert m * g.spc + g.spc == (m + 1) * g.spc;
      DivModUnique(m + 1, 0, g.spc);
      SmallMod(0, g.spc);
      DivModUnique(1, 0, g.spc);
    }
  }

  /** The look of dir_next at the number of the next sector tells whether sector r of cluster c is its last. */
  ghost predicate BoundaryFound(g: Geometry, c: nat, r: nat)
    requires 0 < g.spc && 2 <= c
  {
    (ClustToSect(g, c) + r + 1) % g.spc == 0 <==> r + 1 == g.spc
  }

  /** It does so in every cluster exactly if the data area starts at a multiple of the cluster size. */
  lemma BoundaryIff(g: Geometry)
    requires 0 < g.spc
    ensures (forall c: nat, r: nat :: 2 <= c && r < g.spc ==> BoundaryFound(g, c, r)) <==> g.dataSect % g.spc == 0
  {
    if g.dataSect % g.spc == 0 {
      forall c: nat, r: nat | 2 <= c && r < g.spc
        ensures BoundaryFound(g, c, r)
      {
        AlignedSector(g, c, r);
        if r + 1 < g.spc {
          SmallMod(r + 1, g.spc);
        } else {
          SmallMod(0, g.spc);
        }
      }
    } else {
      var last: nat := g.spc - 1;
      var q, r := g.dataSect / g.spc, g.dataSect % g.spc;
      assert ClustToSect(g, 2) == g.dataSect;
      assert g.dataSect + last + 1 == (q + 1) * g.spc + r by {
        MulNext(q, g.spc);
      }
      DivModUnique(q + 1, r, g.spc);
      assert !BoundaryFound(g, 2, last);
    }
  }

  /** The cursor one record further, as dir_next computes it. */
  lemma StandsNext(g: Geometry, n: nat, q: seq<nat>, k: nat, clust: nat, sect: nat, idx: nat)
    requires Layout(g, n) && 0 < g.spc && g.dataSect % g.spc == 0 && OnVolume(g, q) && Stands(g, q, k, clust, sect, idx)
    ensures idx + 32 < 512 ==> Stands(g, q, k + 1, clust, sect, idx + 32)
    ensures idx + 32 >= 512 && (sect + 1) % g.spc != 0 ==> Stands(g, q, k + 1, clust, sect + 1, 0)
    ensures idx + 32 >= 512 && (sect + 1) % g.spc == 0 ==>
      var j := ClusterIndex(g, 32 * k);
      if j + 1 < |q| then Stands(g, q, k + 1, q[j + 1], ClustToSect(g, q[j + 1]), 0) else j + 1 == |q| && !Covers(g, q, 32 * (k + 1))
  {
    hide Layout, SectorOf;
    var off, next := 32 * k, 32 * (k + 1);
    var i := off / 512;
    OffsetSector(g, q, off);
    ClusterOfSector(g, next);
    NextSector(g, n, q, i);
    SectorCount(g, q, next);
    NextOffset(k);
  }

  lemma NextOffset(k: nat)
    ensures var off, next := 32 * k, 32 * (k + 1);
      if off % 512 + 32 < 512 then next / 512 == off / 512 && next % 512 == off % 512 + 32
      else next / 512 == off / 512 + 1 && next % 512 == 0
  {
  }

  lemma SectorCount(g: Geometry, q: seq<nat>, off: nat)
    ensures Covers(g, q, off) <==> off / 512 < |q| * g.spc
  {
    var n := |q| * g.spc;
    assert FileSize(g, q) == 512 * n;
  }

  // ---- Growing

  /** Behind the records that were there, the directory has only end marks. */
  ghost predicate GrownBy(d: seq<Slot>, e: seq<Slot>) {
    d <= e && forall i :: |d| <= i < |e| ==> IsLast(e[i])
  }

  lemma RecordsOfPrefix(g: Geometry, L: Disk, r: Disk, q: seq<nat>, q': seq<nat>)
    requires TableFits(g, L) && TableFits(g, r) && OnVolume(g, q') && q <= q' && SameData(g, L, r)
    ensures OnVolume(g, q) && Records(g, L, q) <= Records(g, r, q')
  {
    hide FileBytes, Layout;
    BytesOfPrefix(g, L, r, q, q');
    var a, b := FileBytes(g, L, q), FileBytes(g, r, q');
    forall k | 0 <= k < |a| / 32
      ensures SlotsOf(a)[k] == SlotsOf(b)[k]
    {
      assert a[32 * k..32 * k + 32] == b[..|a|][32 * k..32 * k + 32];
    }
  }

  /** A cleared cluster behind the chain adds end marks and leaves the records in front alone. */
  lemma ClearedCluster(g: Geometry, L: Disk, r: Disk, q: seq<nat>, c: nat)
    requires TableFits(g, L) && TableFits(g, r) && 0 < g.spc && OnVolume(g, q) && IsCluster(g, c) && c !in q
    requires ClearedUpTo(g, L, r, c, g.spc)
    ensures OnVolume(g, q + [c]) && GrownBy(Records(g, L, q), Records(g, r, q + [c]))
  {
    hide FileBytes, Layout, FileSize;
    LayoutBounds(g, |L.sectors|);
    var q' := q + [c];
    var d, e := Records(g, L, q), Records(g, r, q');
    forall k: nat | k < |e|
      ensures k < |d| ==> e[k] == d[k]
      ensures k >= |d| ==> IsLast(e[k])
    {
      RecordAt(g, r, q', k);
      var i := 32 * k / 512;
      if k < |d| {
        RecordAt(g, L, q, k);
        SectorOfPrefix(g, q, q', i);
        SectorOfBounds(g, |L.sectors|, q, i);
        NotCleared(g, |L.sectors|, c, SectorOf(g, q, i));
      } else {
        RecordCount(g, L, q, k);
        SectorCount(g, q, 32 * k);
        LastCluster(g, q, c, i);
      }
    }
    assert |d| <= |e| by {
      RecordCount(g, L, q, 0);
      RecordCount(g, r, q', 0);
      MulMono(|q|, |q'|, g.spc);
      assert FileSize(g, q) <= FileSize(g, q') by {
        SizeMono(g, q, q');
      }
    }
  }

  lemma SizeMono(g: Geometry, q: seq<nat>, q': seq<nat>)
    requires |q| <= |q'|
    ensures FileSize(g, q) <= FileSize(g, q')
  {
    MulMono(|q|, |q'|, g.spc);
  }

  lemma RecordAt(g: Geometry, L: Disk, q: seq<nat>, k: nat)
    requires TableFits(g, L) && OnVolume(g, q) && 0 < g.spc && k < |Records(g, L, q)|
    ensures 32 * k / 512 < |q| * g.spc && SectorOf(g, q, 32 * k / 512) < |L.sectors|
    ensures 32 * k % 512 + 32 <= 512 && Records(g, L, q)[k] == L.sectors[SectorOf(g, q, 32 * k / 512)][32 * k % 512..32 * k % 512 + 32]
  {
    hide FileBytes, Layout, SectorOf;
    RecordCount(g, L, q, k);
    OffsetSector(g, q, 32 * k);
    SliceWithinSector(g, L, q, 32 * k, 32);
  }

  /** A sector outside cluster c is not one of its sectors. */
  lemma NotCleared(g: Geometry, n: nat, c: nat, s: nat)
    requires Layout(g, n) && 0 < g.spc && IsCluster(g, c) && g.dataSect <= s && SectToClust(g, s) != c
    ensures !(ClustToSect(g, c) <= s < ClustToSect(g, c) + g.spc)
  {
    hide Layout;
    if ClustToSect(g, c) <= s < ClustToSect(g, c) + g.spc {
      ClusterSector(g, n, c, s - ClustToSect(g, c));
    }
  }

  /** The sectors of a chain behind its first |q| clusters belong to the last one. */
  lemma LastCluster(g: Geometry, q: seq<nat>, c: nat, i: nat)
    requires 0 < g.spc && OnVolume(g, q) && IsCluster(g, c) && |q| * g.spc <= i < (|q| + 1) * g.spc
    ensures OnVolume(g, q + [c]) && i < |q + [c]| * g.spc
    ensures ClustToSect(g, c) <= SectorOf(g, q + [c], i) < ClustToSect(g, c) + g.spc
  {
    SectorIndex(|q| + 1, g.spc, i);
    var k := i / g.spc;
    MulNext(k, g.spc);
    WholeClusters(|q|, k + 1, g.spc);
    assert (q + [c])[k] == c;
  }

  // ---- Changes to the directory and what they leave alone

  /** From L0 to L the directory's chain has grown from q0 to q, and no data sector outside it has changed. */
  ghost predicate Within(g: Geometry, L0: Disk, q0: seq<nat>, L: Disk, q: seq<nat>) {
    TableFits(g, L0) && TableFits(g, L) && IsChain(Table(g, L0), q0) && Confined(g, L0, q0, L, q)
  }

  lemma WithinAtFirst(g: Geometry, L: Disk, q: seq<nat>)
    requires DirOk(g, L, q)
    ensures Within(g, L, q, L, q)
  {
    hide Table, Layout;
    ConfinedFromStart(g, L, q);
  }

  lemma PutStaysWithin(g: Geometry, L0: Disk, q0: seq<nat>, L: Disk, q: seq<nat>, k: nat, clust: nat, sect: nat, idx: nat, data: Sector)
    requires Within(g, L0, q0, L, q) && DirOk(g, L, q) && Stands(g, q, k, clust, sect, idx) && sect < |L.sectors|
    ensures Within(g, L0, q0, L.Put(sect, data), q)
  {
    hide Table, Layout, Confined, IsChain, EntriesOk;
    ConfinedByPut(g, L0, q0, L, q, 32 * k, data);
  }

  /** Another file on the volume keeps its chain and its bytes. */
  lemma OthersKept(g: Geometry, L0: Disk, q0: seq<nat>, L: Disk, q: seq<nat>, r: seq<nat>)
    requires Within(g, L0, q0, L, q) && IsChain(Table(g, L0), r) && Disjoint(r, q0)
    ensures TableFits(g, L0) && TableFits(g, L) && IsChain(Table(g, L), r) && OnVolume(g, r) && FileBytes(g, L, r) == FileBytes(g, L0, r)
  {
    hide Table, Layout, Confined;
    OtherFileKept(g, L0, q0, L, q, r);
  }

  /** The place of a record, found again from its sector. */
  lemma ReturnTo(g: Geometry, n: nat, q: seq<nat>, k: nat, sect: nat, idx: nat)
    requires Layout(g, n) && OnVolume(g, q) && Located(g, q, k, sect, idx)
    ensures g.dataSect <= sect && Stands(g, q, k, SectToClust(g, sect), sect, idx)
  {
    hide Layout, Covers, ClusterIndex;
    LayoutBounds(g, n);
    OffsetSector(g, q, 32 * k);
    SectorOfBounds(g, n, q, 32 * k / 512);
  }

  /** A place stays the place of its record when the chain grows. */
  lemma LocatedGrown(g: Geometry, q: seq<nat>, q': seq<nat>, k: nat, sect: nat, idx: nat)
    requires Located(g, q, k, sect, idx) && q <= q' && OnVolume(g, q')
    ensures Located(g, q', k, sect, idx)
  {
    hide Covers, SectorFor;
    CoversMore(g, q, q', 32 * k, 0);
    CoversIff(g, q', 32 * k);
    var c :| Stands(g, q, k, c, sect, idx);
    assert Stands(g, q', k, c, sect, idx);
  }

  lemma GrownTwice(d: seq<Slot>, e: seq<Slot>, f: seq<Slot>)
    requires GrownBy(d, e) && GrownBy(e, f)
    ensures GrownBy(d, f)
  {
    forall i | |d| <= i < |f|
      ensures IsLast(f[i])
    {
      assert i < |e| ==> f[i] == e[i];
    }
  }

  lemma SamePlace(g: Geometry, n: nat, q: seq<nat>, j: nat, k: nat, c: nat, sect: nat, idx: nat)
    requires Layout(g, n) && OnVolume(g, q) && 0 < g.spc && NoDuplicates(q) && Located(g, q, j, sect, idx) && Stands(g, q, k, c, sect, idx)
    ensures j == k
  {
    hide Layout, Stands;
    var d :| Stands(g, q, j, d, sect, idx);
    StandsUnique(g, n, q, j, k, d, c, sect, idx);
  }

  lemma SameRecords(g: Geometry, L: Disk, r: Disk, q: seq<nat>)
    requires TableFits(g, L) && TableFits(g, r) && OnVolume(g, q) && SameData(g, L, r)
    ensures Records(g, r, q) == Records(g, L, q)
  {
    hide FileBytes, Layout;
    RecordsOfPrefix(g, L, r, q, q);
  }

  /** A stretched and cleared directory: the chain has one more cluster, and the records in it mark the end. */
  lemma StretchedDirectory(g: Geometry, L: Disk, q: seq<nat>, lastUsed: nat, c: nat, freeCnt: nat, r: Disk)
    requires DirOk(g, L, q) && 0 < |q| && IsCluster(g, lastUsed) && freeCnt < WORD_MOD && q[|q| - 1] < g.clustCnt
    requires NextFit(Table(g, L), lastUsed, q[|q| - 1], c)
    requires IsCluster(g, c) && ClearedUpTo(g, StretchedDisk(g, L, q[|q| - 1], c, freeCnt), r, c, g.spc)
    ensures DirOk(g, r, q + [c]) && GrownBy(Records(g, L, q), Records(g, r, q + [c])) && |Records(g, L, q)| < |Records(g, r, q + [c])|
    ensures Stands(g, q + [c], |Records(g, L, q)|, c, ClustToSect(g, c), 0)
    ensures TableFits(g, r) && Table(g, r) == Stretched(Table(g, L), q[|q| - 1], c) && !(c in q)
    ensures |r.sectors| == |L.sectors|
    ensures forall s :: g.dataSect <= s < |L.sectors| && SectToClust(g, s) != c ==> r.sectors[s] == L.sectors[s]
    ensures Mirrored(g, L) ==> Mirrored(g, r)
  {
    hide Table, Layout, Records, IsChain, EntriesOk, StretchedDisk, Stretched, Mirrored, GrownBy, NextFit;
    LayoutBounds(g, |L.sectors|);
    var t, prev := Table(g, L), q[|q| - 1];
    NextFitIsFree(t, lastUsed, prev, c);
    var m := StretchedDisk(g, L, prev, c, freeCnt);
    StretchedDiskEffect(g, L, prev, c, freeCnt);
    ClearedTable(g, m, r, c, g.spc);
    GrownFromStart(t, q);
    GrowByOne(t, q, t, q, c);
    GrownFacts(t, q, Table(g, r), q + [c]);
    FreeNotIn(t, q, c);
    SameRecords(g, L, m, q);
    ClearedCluster(g, m, r, q, c);
    FirstNewRecord(g, L, r, q, c);
    forall s | g.dataSect <= s < |L.sectors| && SectToClust(g, s) != c
      ensures r.sectors[s] == L.sectors[s]
    {
      NotCleared(g, |L.sectors|, c, s);
    }
  }

  lemma FreeNotIn(t: Entries, q: seq<nat>, c: nat)
    requires IsChain(t, q) && c < |t| && t[c] == 0
    ensures c !in q
  {
    if c in q {
      var i :| 0 <= i < |q| && q[i] == c;
      ChainStep(t, q, i);
    }
  }

  lemma FirstNewRecord(g: Geometry, L: Disk, r: Disk, q: seq<nat>, c: nat)
    requires TableFits(g, L) && TableFits(g, r) && 0 < g.spc && OnVolume(g, q) && IsCluster(g, c) && OnVolume(g, q + [c])
    ensures Stands(g, q + [c], |Records(g, L, q)|, c, ClustToSect(g, c), 0)
    ensures |Records(g, L, q)| < |Records(g, r, q + [c])|
  {
    hide FileBytes, Layout, SectorOf;
    var n, q' := |q| * g.spc, q + [c];
    RecordCount(g, L, q, 0);
    assert |FileBytes(g, L, q)| == FileSize(g, q) == 512 * n;
    var k := |Records(g, L, q)|;
    assert 32 * k == 512 * n;
    MulNext(|q|, g.spc);
    SectorCount(g, q', 32 * k);
    OffsetSector(g, q', 32 * k);
    DivModUnique(|q|, 0, g.spc);
    FirstSectorOf(g, q, c);
    RecordCount(g, r, q', k);
  }

  lemma FirstSectorOf(g: Geometry, q: seq<nat>, c: nat)
    requires 0 < g.spc && IsCluster(g, c) && OnVolume(g, q + [c])
    ensures |q| * g.spc < |q + [c]| * g.spc && |q| * g.spc / g.spc == |q|
    ensures SectorOf(g, q + [c], |q| * g.spc) == ClustToSect(g, c)
  {
    MulNext(|q|, g.spc);
    DivModUnique(|q|, 0, g.spc);
  }

  lemma StretchStaysWithin(g: Geometry, L0: Disk, q0: seq<nat>, L: Disk, q: seq<nat>, r: Disk, c: nat)
    requires Within(g, L0, q0, L, q) && TableFits(g, r) && |r.sectors| == |L.sectors| && IsChain(Table(g, L), q) && 0 < |q|
    requires InTable(Table(g, L), c) && Table(g, L)[c] == 0 && q[|q| - 1] < g.clustCnt
    requires Table(g, r) == Stretched(Table(g, L), q[|q| - 1], c) && (Mirrored(g, L) ==> Mirrored(g, r))
    requires forall s :: g.dataSect <= s < |L.sectors| && SectToClust(g, s) != c ==> r.sectors[s] == L.sectors[s]
    ensures Within(g, L0, q0, r, q + [c])
  {
    hide Table, Layout, Grown, IsChain, Mirrored, Stretched;
    LayoutBounds(g, |L.sectors|);
    GrowByOne(Table(g, L0), q0, Table(g, L), q, c);
    forall s | g.dataSect <= s < |r.sectors| && SectToClust(g, s) !in q + [c]
      ensures r.sectors[s] == L0.sectors[s]
    {
      assert c in q + [c];
      assert forall x :: x in q ==> x in q + [c];
    }
  }
}
