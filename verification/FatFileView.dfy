// A file as one flat sequence of bytes: the sectors of its cluster chain, end to end.
module FatFileView {
  import opened Machine
  import opened FatDisk
  import opened FatChains

  function ClusterBytes(g: Geometry): (n: nat)
    ensures 0 < g.spc ==> 0 < n
  {
    g.spc * 512
  }

  /** The bytes that the clusters of a chain hold. */
  function FileSize(g: Geometry, q: seq<nat>): nat {
    |q| * g.spc * 512
  }

  /** The position in the chain of the cluster that holds byte off. */
  function ClusterIndex(g: Geometry, off: nat): nat
    requires 0 < g.spc
  {
    DivNat(off, ClusterBytes(g));
    off / ClusterBytes(g)
  }

  lemma DivNat(a: nat, b: nat)
    requires 0 < b
    ensures 0 <= a / b
  {
  }

  /** All clusters of the chain exist on the volume. */
  predicate OnVolume(g: Geometry, q: seq<nat>) {
    forall i :: 0 <= i < |q| ==> IsCluster(g, q[i])
  }

  ghost predicate NoDuplicates(q: seq<nat>) {
    forall i, j :: 0 <= i < |q| && 0 <= j < |q| && q[i] == q[j] ==> i == j
  }

  lemma SectorIndex(n: nat, spc: nat, k: nat)
    requires 0 < spc && k < n * spc
    ensures k / spc < n && 0 <= k % spc < spc
    ensures k == k / spc * spc + k % spc
  {
    if n <= k / spc {
      MulMono(n, k / spc, spc);
    }
  }

  /** Splitting an offset into cluster, sector of the cluster and byte, the way the seek does. */
  lemma OffsetSector(g: Geometry, q: seq<nat>, off: nat)
    requires 0 < g.spc && Covers(g, q, off)
    ensures off / 512 < |q| * g.spc && ClusterIndex(g, off) < |q|
    ensures ClusterIndex(g, off) == off / 512 / g.spc
  {
    var k := off / 512;
    SectorIndex(|q|, g.spc, k);
    ClusterOfSector(g, off);
  }

  lemma ClusterOfSector(g: Geometry, off: nat)
    requires 0 < g.spc
    ensures ClusterIndex(g, off) == off / 512 / g.spc
  {
    var k := off / 512;
    var c, r := k / g.spc, k % g.spc;
    var rest := r * 512 + off % 512;
    assert rest < g.spc * 512;
    assert off == c * (g.spc * 512) + rest by {
      assert k == c * g.spc + r;
      assert c * (g.spc * 512) == c * g.spc * 512;
    }
    DivModUnique(c, rest, g.spc * 512);
  }

  /** The disk sector that holds sector k of the file. */
  function SectorOf(g: Geometry, q: seq<nat>, k: nat): (s: nat)
    requires 0 < g.spc && OnVolume(g, q) && k < |q| * g.spc
    ensures g.dataSect <= s
  {
    SectorIndex(|q|, g.spc, k);
    ClustToSect(g, q[k / g.spc]) + k % g.spc
  }

  /** The cluster that holds sector k of the file. */
  function ClusterOf(g: Geometry, q: seq<nat>, k: nat): (c: nat)
    requires 0 < g.spc && k < |q| * g.spc
    ensures c in q
  {
    SectorIndex(|q|, g.spc, k);
    q[k / g.spc]
  }

  /** A sector that is not part of the file: metadata, or part of another cluster. */
  predicate Apart(g: Geometry, q: seq<nat>, s: nat)
    requires 0 < g.spc
  {
    s < g.dataSect || SectToClust(g, s) !in q
  }

  lemma SectorOfBounds(g: Geometry, n: nat, q: seq<nat>, k: nat)
    requires Layout(g, n) && OnVolume(g, q) && k < |q| * g.spc
    ensures SectorOf(g, q, k) < n
    ensures SectToClust(g, SectorOf(g, q, k)) == ClusterOf(g, q, k)
    ensures (SectorOf(g, q, k) - g.dataSect) % g.spc == k % g.spc
  {
    hide Layout;
    LayoutBounds(g, n);
    SectorIndex(|q|, g.spc, k);
    ClusterSector(g, n, q[k / g.spc], k % g.spc);
  }

  lemma SectorOfApart(g: Geometry, n: nat, q: seq<nat>, k: nat, s: nat)
    requires Layout(g, n) && OnVolume(g, q) && k < |q| * g.spc && Apart(g, q, s)
    ensures SectorOf(g, q, k) != s
  {
    hide Layout;
    LayoutBounds(g, n);
    SectorIndex(|q|, g.spc, k);
    SectorOfBounds(g, n, q, k);
  }

  lemma SectorOfUnique(g: Geometry, n: nat, q: seq<nat>, j: nat, k: nat)
    requires Layout(g, n) && OnVolume(g, q) && NoDuplicates(q) && j < |q| * g.spc && k < |q| * g.spc
    requires SectorOf(g, q, j) == SectorOf(g, q, k)
    ensures j == k
  {
    hide Layout, SectorOf;
    LayoutBounds(g, n);
    SectorIndex(|q|, g.spc, j);
    SectorIndex(|q|, g.spc, k);
    SectorOfBounds(g, n, q, j);
    SectorOfBounds(g, n, q, k);
    assert j / g.spc == k / g.spc;
  }

  lemma SectorOfPrefix(g: Geometry, q: seq<nat>, q': seq<nat>, k: nat)
    requires 0 < g.spc && OnVolume(g, q) && OnVolume(g, q') && q <= q' && k < |q| * g.spc
    ensures k < |q'| * g.spc && SectorOf(g, q', k) == SectorOf(g, q, k)
  {
    MulMono(|q|, |q'|, g.spc);
    SectorIndex(|q|, g.spc, k);
  }

  /** Byte off lies in the clusters of the chain. */
  predicate Covers(g: Geometry, q: seq<nat>, off: nat) {
    off < FileSize(g, q)
  }

  /** So do the first n bytes. */
  predicate Holds(g: Geometry, q: seq<nat>, n: nat) {
    n <= FileSize(g, q)
  }

  /** Where in its cluster the sector of byte off lies. */
  function SectorInCluster(g: Geometry, off: nat): nat
    requires 0 < g.spc
  {
    off / 512 % g.spc
  }

  /** The disk sector that holds byte off of the file. */
  function SectorFor(g: Geometry, q: seq<nat>, off: nat): (s: nat)
    requires 0 < g.spc && OnVolume(g, q) && Covers(g, q, off)
    ensures g.dataSect <= s
  {
    OffsetSector(g, q, off);
    SectorOf(g, q, off / 512)
  }

  /** The sector that the seek computes for an offset is the one that holds it, and is not sector s. */
  lemma SeekSector(g: Geometry, n: nat, q: seq<nat>, off: nat, s: nat)
    requires Layout(g, n) && OnVolume(g, q) && Covers(g, q, off) && Apart(g, q, s)
    ensures ClusterIndex(g, off) < |q|
    ensures SectorFor(g, q, off) == ClustToSect(g, q[ClusterIndex(g, off)]) + SectorInCluster(g, off)
    ensures g.dataSect <= SectorFor(g, q, off) < n
    ensures SectorFor(g, q, off) != s
  {
    hide Layout;
    LayoutBounds(g, n);
    OffsetSector(g, q, off);
    SectorOfBounds(g, n, q, off / 512);
    SectorOfApart(g, n, q, off / 512, s);
  }

  /** The sector that the seek computes from a cluster is the one that holds the offset exactly if the cluster is. */
  lemma SeekSectorIff(g: Geometry, n: nat, q: seq<nat>, c: nat, off: nat)
    requires Layout(g, n) && OnVolume(g, q) && Covers(g, q, off) && IsCluster(g, c)
    ensures ClusterIndex(g, off) < |q|
    ensures ClustToSect(g, c) + SectorInCluster(g, off) == SectorFor(g, q, off) <==> c == q[ClusterIndex(g, off)]
  {
    hide Covers, SectorFor, ClustToSect, SectToClust, Layout, ClusterIndex;
    LayoutBounds(g, n);
    var i := SectorInCluster(g, off);
    SeekSector(g, n, q, off, 0);
    ClusterSector(g, n, c, i);
    ClusterSector(g, n, q[ClusterIndex(g, off)], i);
  }

  /** A longer chain covers what the shorter one covered, at the same sectors. */
  lemma CoversMore(g: Geometry, q: seq<nat>, q': seq<nat>, off: nat, size: nat)
    requires 0 < g.spc && OnVolume(g, q) && OnVolume(g, q') && q <= q' && Holds(g, q, size)
    ensures Holds(g, q', size)
    ensures Covers(g, q, off) ==> Covers(g, q', off) && SectorFor(g, q', off) == SectorFor(g, q, off)
  {
    MulMono(|q|, |q'|, g.spc);
    if Covers(g, q, off) {
      OffsetSector(g, q, off);
      OffsetSector(g, q', off);
      SectorOfPrefix(g, q, q', off / 512);
    }
  }

  /** A chain with a cluster at the index of byte off covers it. */
  lemma CoversIff(g: Geometry, q: seq<nat>, off: nat)
    requires 0 < g.spc
    ensures Covers(g, q, off) <==> ClusterIndex(g, off) < |q|
  {
    ClusterOfSector(g, off);
    var k := off / 512;
    if k / g.spc < |q| {
      MulMono(k / g.spc + 1, |q|, g.spc);
      assert (k / g.spc + 1) * g.spc == k / g.spc * g.spc + g.spc;
    } else {
      MulMono(|q|, k / g.spc, g.spc);
    }
  }

  lemma HoldsCovers(g: Geometry, q: seq<nat>, off: nat, size: nat)
    requires Holds(g, q, size) && off < size
    ensures Covers(g, q, off)
  {
  }

  lemma ClusterIndexMono(g: Geometry, a: nat, b: nat)
    requires 0 < g.spc && a <= b
    ensures ClusterIndex(g, a) <= ClusterIndex(g, b)
  {
    var cs := ClusterBytes(g);
    if b / cs < a / cs {
      MulMono(b / cs + 1, a / cs, cs);
    }
  }

  // ---- The bytes

  function ByteAt(g: Geometry, L: Disk, q: seq<nat>, o: nat): byte
    requires TableFits(g, L) && OnVolume(g, q) && o < FileSize(g, q)
  {
    SectorOfBounds(g, |L.sectors|, q, o / 512);
    L.sectors[SectorOf(g, q, o / 512)][o % 512]
  }

  /** Everything in the clusters of the chain, in file order. */
  function FileBytes(g: Geometry, L: Disk, q: seq<nat>): (b: seq<byte>)
    requires TableFits(g, L) && OnVolume(g, q)
    ensures |b| == FileSize(g, q)
  {
    seq(FileSize(g, q), o requires 0 <= o < FileSize(g, q) => ByteAt(g, L, q, o))
  }

  lemma FileLength(g: Geometry, L: Disk, q: seq<nat>, off: nat, size: nat)
    requires TableFits(g, L) && OnVolume(g, q) && Covers(g, q, off) && Holds(g, q, size)
    ensures off < |FileBytes(g, L, q)| && size <= |FileBytes(g, L, q)|
  {
    hide FileBytes, FileSize, Layout;
  }

  /** s with the bytes from position at on replaced by d. */
  function Overwrite(s: seq<byte>, at: nat, d: seq<byte>): (r: seq<byte>)
    requires at + |d| <= |s|
    ensures |r| == |s|
  {
    s[..at] + d + s[at + |d|..]
  }

  lemma SectorSlice(g: Geometry, L: Disk, q: seq<nat>, k: nat)
    requires TableFits(g, L) && OnVolume(g, q) && k < |q| * g.spc
    ensures SectorOf(g, q, k) < |L.sectors|
    ensures FileBytes(g, L, q)[k * 512..k * 512 + 512] == L.sectors[SectorOf(g, q, k)]
  {
    hide Layout, SectorOf;
    SectorOfBounds(g, |L.sectors|, q, k);
    var b := FileBytes(g, L, q)[k * 512..k * 512 + 512];
    forall i | 0 <= i < 512
      ensures b[i] == L.sectors[SectorOf(g, q, k)][i]
    {
      var o := k * 512 + i;
      assert o / 512 == k && o % 512 == i;
      assert FileBytes(g, L, q)[o] == ByteAt(g, L, q, o);
    }
  }

  /** Replacing a sector of the file replaces exactly its bytes. */
  lemma SectorPut(g: Geometry, L: Disk, q: seq<nat>, k: nat, data: Sector)
    requires TableFits(g, L) && OnVolume(g, q) && NoDuplicates(q) && k < |q| * g.spc
    ensures SectorOf(g, q, k) < |L.sectors|
    ensures FileBytes(g, L.Put(SectorOf(g, q, k), data), q) == Overwrite(FileBytes(g, L, q), k * 512, data)
  {
    hide Layout, SectorOf;
    SectorOfBounds(g, |L.sectors|, q, k);
    var s := SectorOf(g, q, k);
    var r := L.Put(s, data);
    var was, now := FileBytes(g, L, q), FileBytes(g, r, q);
    forall o: nat | o < |was|
      ensures now[o] == Overwrite(was, k * 512, data)[o]
    {
      var j := o / 512;
      assert now[o] == ByteAt(g, r, q, o) && was[o] == ByteAt(g, L, q, o);
      SectorOfBounds(g, |L.sectors|, q, j);
      if j != k {
        if SectorOf(g, q, j) == s {
          SectorOfUnique(g, |L.sectors|, q, j, k);
        }
      }
    }
  }

  /** The bytes of a file depend on its data sectors only, and a longer chain keeps them in front. */
  lemma BytesOfPrefix(g: Geometry, L: Disk, r: Disk, q: seq<nat>, q': seq<nat>)
    requires TableFits(g, L) && TableFits(g, r) && OnVolume(g, q') && q <= q' && SameData(g, L, r)
    ensures OnVolume(g, q) && FileBytes(g, L, q) <= FileBytes(g, r, q')
  {
    hide Layout, SectorOf;
    LayoutBounds(g, |L.sectors|);
    assert forall i :: 0 <= i < |q| ==> q[i] == q'[i];
    var a, b := FileBytes(g, L, q), FileBytes(g, r, q');
    MulMono(|q|, |q'|, g.spc);
    forall o: nat | o < |a|
      ensures a[o] == b[o]
    {
      var k := o / 512;
      assert a[o] == ByteAt(g, L, q, o) && b[o] == ByteAt(g, r, q', o);
      SectorOfPrefix(g, q, q', k);
      SectorOfBounds(g, |L.sectors|, q, k);
    }
  }

  // ---- The file's own buffer over the disk

  /** The disk with a dirty file buffer laid over its sector. */
  function Overlay(L: Disk, dirty: bool, sect: nat, data: Sector): Disk
    requires dirty ==> sect < |L.sectors|
  {
    if dirty then L.Put(sect, data) else L
  }

  /** A sector of the data area has no bearing on the allocation table. */
  lemma DataPutEffect(g: Geometry, L: Disk, s: nat, data: Sector)
    requires TableFits(g, L) && g.dataSect <= s < |L.sectors|
    ensures Table(g, L.Put(s, data)) == Table(g, L)
    ensures Mirrored(g, L.Put(s, data)) <==> Mirrored(g, L)
  {
    hide Word;
    var r := L.Put(s, data);
    forall base: nat, c: nat | IsCopy(g, base) && c < g.clustCnt
      ensures Raw(g, r, base, c) == Raw(g, L, base, c)
    {
      assert InCopy(g, base, base + c / 128);
    }
    assert IsCopy(g, g.fat0);
    assert forall c :: 0 <= c < g.clustCnt ==> Entry(g, r, c) == Entry(g, L, c);
  }

  lemma OverlayTable(g: Geometry, L: Disk, dirty: bool, s: nat, data: Sector)
    requires TableFits(g, L) && (dirty ==> g.dataSect <= s < |L.sectors|)
    ensures TableFits(g, Overlay(L, dirty, s, data)) && Table(g, Overlay(L, dirty, s, data)) == Table(g, L)
  {
    hide Table, Layout;
    if dirty {
      DataPutEffect(g, L, s, data);
    }
  }

  lemma OverlayExtended(g: Geometry, L0: Disk, q0: seq<nat>, L: Disk, q: seq<nat>, dirty: bool, s: nat, data: Sector)
    requires TableFits(g, L0) && TableFits(g, L) && Extended(g, L0, q0, L, q)
    requires dirty ==> g.dataSect <= s < |L0.sectors|
    ensures dirty ==> s < |L.sectors|
    ensures TableFits(g, Overlay(L0, dirty, s, data)) && TableFits(g, Overlay(L, dirty, s, data))
    ensures Extended(g, Overlay(L0, dirty, s, data), q0, Overlay(L, dirty, s, data), q)
  {
    hide Table, Layout, Mirrored, Grown;
    if dirty {
      DataPutEffect(g, L0, s, data);
      DataPutEffect(g, L, s, data);
    }
  }

  lemma ExtendedSector(g: Geometry, L0: Disk, q0: seq<nat>, L: Disk, q: seq<nat>, s: nat)
    requires TableFits(g, L0) && TableFits(g, L) && Extended(g, L0, q0, L, q)
    requires g.dataSect <= s < |L0.sectors|
    ensures q0 <= q && |L.sectors| == |L0.sectors| && L.sectors[s] == L0.sectors[s]
  {
    hide Table;
  }

  /** Growing the chain leaves all bytes of the file where they were. */
  lemma ExtendedBytes(g: Geometry, L0: Disk, q0: seq<nat>, L: Disk, q: seq<nat>)
    requires TableFits(g, L0) && TableFits(g, L) && Extended(g, L0, q0, L, q)
    ensures q0 <= q && OnVolume(g, q) && OnVolume(g, q0) && FileBytes(g, L0, q0) <= FileBytes(g, L, q)
  {
    hide Table, Layout, FileBytes, EntriesOk;
    var t := Table(g, L);
    GrownFacts(Table(g, L0), q0, t, q);
    assert forall i :: 0 <= i < |q| ==> InTable(t, q[i]);
    BytesOfPrefix(g, L0, L, q0, q);
  }

  /**
   * What holds of an open file after the walk of a seek: the buffered sector s, that of offset off,
   * is still part of the file, still agrees with the disk, and is not the sector m of the volume's buffer.
   */
  lemma AfterWalk(g: Geometry, L0: Disk, q0: seq<nat>, L: Disk, q: seq<nat>, dirty: bool, s: nat, data: Sector, off: nat, size: nat, m: nat)
    requires TableFits(g, L0) && TableFits(g, L) && Extended(g, L0, q0, L, q)
    requires OnVolume(g, q0) && Covers(g, q0, off) && Holds(g, q0, size) && Apart(g, q, m)
    requires if s == NO_SECTOR then !dirty else s == SectorFor(g, q0, off) && s < |L0.sectors|
    ensures q0 <= q && OnVolume(g, q) && Covers(g, q, off) && Holds(g, q, size)
    ensures s != NO_SECTOR ==>
      g.dataSect <= s < |L.sectors| == |L0.sectors| && s == SectorFor(g, q, off) && s != m && L.sectors[s] == L0.sectors[s]
    ensures TableFits(g, Overlay(L0, dirty, s, data)) && TableFits(g, Overlay(L, dirty, s, data))
    ensures Table(g, Overlay(L, dirty, s, data)) == Table(g, L)
    ensures Extended(g, Overlay(L0, dirty, s, data), q0, Overlay(L, dirty, s, data), q)
  {
    hide Table, Layout, Extended, Covers, Holds, SectorFor;
    LayoutBounds(g, |L.sectors|);
    ExtendedBytes(g, L0, q0, L, q);
    CoversMore(g, q0, q, off, size);
    SeekSector(g, |L.sectors|, q, off, m);
    if s != NO_SECTOR {
      ExtendedSector(g, L0, q0, L, q, s);
    }
    OverlayExtended(g, L0, q0, L, q, dirty, s, data);
    OverlayTable(g, L, dirty, s, data);
  }

  /** How many of len bytes a read from off on delivers. */
  function Readable(off: nat, size: nat, len: nat): nat {
    if size <= off then 0 else if len < size - off then len else size - off
  }

  /** How much of n bytes from off on lies in the sector of off. */
  function Chunk(off: nat, n: nat): nat {
    if n < 512 - off % 512 then n else 512 - off % 512
  }

  lemma ChunkFits(off: nat, n: nat)
    requires 0 < n
    ensures 0 < Chunk(off, n) <= n && off % 512 + Chunk(off, n) <= 512
  {
  }

  lemma ReadableBounds(off: nat, size: nat, len: nat)
    ensures 0 < Readable(off, size, len) <==> 0 < len && off < size
    ensures off <= size ==> off + Readable(off, size, len) <= size
    ensures size <= off ==> Readable(off, size, len) == 0
  {
  }

  lemma ReadableAfter(off: nat, size: nat, len: nat, cnt: nat)
    requires cnt <= Readable(off, size, len)
    ensures cnt <= len && Readable(off + cnt, size, len - cnt) == Readable(off, size, len) - cnt
    ensures cnt < Readable(off, size, len) ==> off + cnt < size
  {
  }

  // ---- Writing into the file

  /** From L0 to L the chain has grown from q0 to q, and no data sector outside it has changed. */
  ghost predicate Confined(g: Geometry, L0: Disk, q0: seq<nat>, L: Disk, q: seq<nat>)
    requires TableFits(g, L0) && TableFits(g, L)
  {
    && |L.sectors| == |L0.sectors|
    && Grown(Table(g, L0), q0, Table(g, L), q)
    && (Mirrored(g, L0) ==> Mirrored(g, L))
    && (forall s :: g.dataSect <= s < |L.sectors| && SectToClust(g, s) !in q ==> L.sectors[s] == L0.sectors[s])
  }

  lemma ConfinedFromStart(g: Geometry, L: Disk, q: seq<nat>)
    requires TableFits(g, L) && EntriesOk(Table(g, L)) && IsChain(Table(g, L), q)
    ensures Confined(g, L, q, L, q)
  {
    GrownFromStart(Table(g, L), q);
  }

  lemma ConfinedByExtension(g: Geometry, L0: Disk, q0: seq<nat>, L: Disk, q: seq<nat>, r: Disk, q': seq<nat>)
    requires TableFits(g, L0) && TableFits(g, L) && TableFits(g, r)
    requires IsChain(Table(g, L0), q0) && Confined(g, L0, q0, L, q) && Extended(g, L, q, r, q')
    ensures Confined(g, L0, q0, r, q')
  {
    hide Table, Layout, Mirrored, Grown, IsChain;
    LayoutBounds(g, |L.sectors|);
    GrownTransitive(Table(g, L0), q0, Table(g, L), q, Table(g, r), q');
    GrownFacts(Table(g, L), q, Table(g, r), q');
    forall s | g.dataSect <= s < |r.sectors| && SectToClust(g, s) !in q'
      ensures SectToClust(g, s) !in q
    {
    }
  }

  lemma ConfinedByPut(g: Geometry, L0: Disk, q0: seq<nat>, L: Disk, q: seq<nat>, off: nat, data: Sector)
    requires TableFits(g, L0) && TableFits(g, L) && Confined(g, L0, q0, L, q)
    requires OnVolume(g, q) && Covers(g, q, off) && SectorFor(g, q, off) < |L.sectors|
    ensures TableFits(g, L.Put(SectorFor(g, q, off), data))
    ensures Confined(g, L0, q0, L.Put(SectorFor(g, q, off), data), q)
  {
    hide Table, Layout, Mirrored, Grown, SectorOf;
    LayoutBounds(g, |L.sectors|);
    OffsetSector(g, q, off);
    SectorOfBounds(g, |L.sectors|, q, off / 512);
    DataPutEffect(g, L, SectorFor(g, q, off), data);
  }

  lemma ConfinedFacts(g: Geometry, L0: Disk, q0: seq<nat>, L: Disk, q: seq<nat>)
    requires TableFits(g, L0) && TableFits(g, L) && Confined(g, L0, q0, L, q)
    ensures |L.sectors| == |L0.sectors| && Grown(Table(g, L0), q0, Table(g, L), q)
  {
  }

  lemma ConfinedSector(g: Geometry, L0: Disk, q0: seq<nat>, L: Disk, q: seq<nat>, s: nat)
    requires TableFits(g, L0) && TableFits(g, L) && Confined(g, L0, q0, L, q)
    requires g.dataSect <= s < |L.sectors| && SectToClust(g, s) !in q
    ensures |L0.sectors| == |L.sectors| && L.sectors[s] == L0.sectors[s]
  {
  }

  lemma ConfinedByte(g: Geometry, L0: Disk, q0: seq<nat>, L: Disk, q: seq<nat>, r: seq<nat>, o: nat)
    requires TableFits(g, L0) && TableFits(g, L) && Confined(g, L0, q0, L, q)
    requires OnVolume(g, r) && Disjoint(r, q) && o < FileSize(g, r)
    ensures ByteAt(g, L, r, o) == ByteAt(g, L0, r, o)
  {
    hide Table, Layout, Confined, SectorOf;
    LayoutBounds(g, |L.sectors|);
    var k := o / 512;
    SectorIndex(|r| * g.spc, 512, o);
    SectorOfBounds(g, |L.sectors|, r, k);
    SectorIndex(|r|, g.spc, k);
    ConfinedSector(g, L0, q0, L, q, SectorOf(g, r, k));
  }

  /** Another file: its chain survives, stays apart from the one that has grown, and so do its bytes. */
  lemma OtherFileKept(g: Geometry, L0: Disk, q0: seq<nat>, L: Disk, q: seq<nat>, r: seq<nat>)
    requires TableFits(g, L0) && TableFits(g, L) && Confined(g, L0, q0, L, q)
    requires IsChain(Table(g, L0), r) && Disjoint(r, q0)
    ensures IsChain(Table(g, L), r) && Disjoint(r, q) && OnVolume(g, r)
    ensures FileBytes(g, L, r) == FileBytes(g, L0, r)
  {
    hide Table, Layout, Confined, Grown, ByteAt;
    var t0 := Table(g, L0);
    ConfinedFacts(g, L0, q0, L, q);
    GrownSparesOthers(t0, q0, Table(g, L), q, r);
    assert forall i :: 0 <= i < |r| ==> InTable(t0, r[i]);
    forall o: nat | o < FileSize(g, r)
      ensures FileBytes(g, L, r)[o] == FileBytes(g, L0, r)[o]
    {
      ConfinedByte(g, L0, q0, L, q, r, o);
    }
  }

  /** A run of bytes within one sector of the file. */
  lemma SliceWithinSector(g: Geometry, L: Disk, q: seq<nat>, off: nat, n: nat)
    requires TableFits(g, L) && OnVolume(g, q) && Covers(g, q, off) && off % 512 + n <= 512
    ensures SectorFor(g, q, off) < |L.sectors| && off + n <= |FileBytes(g, L, q)|
    ensures FileBytes(g, L, q)[off..off + n] == L.sectors[SectorFor(g, q, off)][off % 512..off % 512 + n]
  {
    hide Layout, SectorOf, FileBytes;
    LayoutBounds(g, |L.sectors|);
    OffsetSector(g, q, off);
    var k, b := off / 512, FileBytes(g, L, q);
    SectorSlice(g, L, q, k);
    assert b[off..off + n] == b[k * 512..k * 512 + 512][off % 512..off % 512 + n];
  }

  /** Storing a run of bytes in the sector of off overwrites just those bytes of the file. */
  lemma PutWithinSector(g: Geometry, L: Disk, q: seq<nat>, off: nat, d: seq<byte>)
    requires TableFits(g, L) && OnVolume(g, q) && NoDuplicates(q) && Covers(g, q, off) && off % 512 + |d| <= 512
    ensures SectorFor(g, q, off) < |L.sectors| && off + |d| <= |FileBytes(g, L, q)|
    ensures var s := SectorFor(g, q, off);
      FileBytes(g, L.Put(s, Overwrite(L.sectors[s], off % 512, d)), q) == Overwrite(FileBytes(g, L, q), off, d)
  {
    hide Layout, SectorOf, FileBytes;
    LayoutBounds(g, |L.sectors|);
    OffsetSector(g, q, off);
    var k, i, b := off / 512, off % 512, FileBytes(g, L, q);
    SectorSlice(g, L, q, k);
    var was := L.sectors[SectorOf(g, q, k)];
    SectorPut(g, L, q, k, Overwrite(was, i, d));
    OverwriteNested(b, k * 512, i, d);
  }

  lemma OverwriteNested(b: seq<byte>, at: nat, i: nat, d: seq<byte>)
    requires at + 512 <= |b| && i + |d| <= 512
    ensures Overwrite(b, at, Overwrite(b[at..at + 512], i, d)) == Overwrite(b, at + i, d)
  {
    var x, y := Overwrite(b, at, Overwrite(b[at..at + 512], i, d)), Overwrite(b, at + i, d);
    forall o | 0 <= o < |b|
      ensures x[o] == y[o]
    {
    }
  }

  /** c0 with d written at off, possibly followed by more bytes: what a write must leave of a file. */
  ghost predicate Written(c0: seq<byte>, c: seq<byte>, off: nat, d: seq<byte>) {
    && |c0| <= |c| && off + |d| <= |c|
    && (forall i :: off <= i < off + |d| ==> c[i] == d[i - off])
    && (forall i :: 0 <= i < |c0| && !(off <= i < off + |d|) ==> c[i] == c0[i])
  }

  lemma WrittenMore(c0: seq<byte>, c: seq<byte>, off: nat, d: seq<byte>, e: seq<byte>, c': seq<byte>)
    requires Written(c0, c, off, d) && off + |d| + |e| <= |c| && Overwrite(c, off + |d|, e) <= c'
    ensures Written(c0, c', off, d + e)
  {
    var m := Overwrite(c, off + |d|, e);
    assert forall i :: 0 <= i < |m| ==> c'[i] == m[i];
  }
}
