// An open file: a cursor that walks and extends the cluster chain, and a one-sector
// write-back buffer of its own. The methods are proved against the flat view of the file.
module FatFile {
  import opened Machine
  import opened FatDisk
  import opened FatChains
  import opened FatVolume
  import opened FatFileView

  datatype Whence = SeekStart | SeekCurr | SeekEnd

  /** An open file on values: the disk as the file sees it, its chain, the allocation hint and the cursor. */
  datatype View = View(image: Disk, chain: seq<nat>, lastUsed: nat, offset: nat)

  ghost predicate ViewOk(g: Geometry, v: View) {
    && TableFits(g, v.image) && 0 < g.spc
    && EntriesOk(Table(g, v.image)) && IsChain(Table(g, v.image), v.chain)
    && OnVolume(g, v.chain) && Covers(g, v.chain, v.offset)
  }

  /** All bytes of the clusters allocated to the file. */
  ghost function Bytes(g: Geometry, v: View): seq<byte>
    requires ViewOk(g, v)
  {
    FileBytes(g, v.image, v.chain)
  }

  /** Clusters can still be appended until byte end is covered. */
  ghost predicate RoomUpTo(g: Geometry, v: View, end: nat)
    requires ViewOk(g, v)
  {
    Room(Table(g, v.image), v.lastUsed, v.chain[|v.chain| - 1], Missing(|v.chain|, ClusterIndex(g, end)))
  }

  lemma RoomUpToHere(g: Geometry, v: View)
    requires ViewOk(g, v)
    ensures RoomUpTo(g, v, v.offset)
  {
    CoversIff(g, v.chain, v.offset);
  }

  /** A step of cnt bytes on the way to byte end, with its outcome. */
  ghost predicate Stepped(g: Geometry, v: View, w: View, cnt: nat, end: nat, err: Err)
    requires ViewOk(g, v) && ViewOk(g, w)
  {
    && Extended(g, v.image, v.chain, w.image, w.chain)
    && (err.Ok? ==> w.offset == v.offset + cnt && (RoomUpTo(g, v, end) <==> RoomUpTo(g, w, end)))
    && (!err.Ok? ==> w.offset == v.offset && (v.offset + cnt > NO_SECTOR || (err.ErrFull? && !RoomUpTo(g, v, end))))
    && (v.offset + cnt <= NO_SECTOR && Covers(g, v.chain, v.offset + cnt) ==> err.Ok?)
  }

  /** A read from v of n bytes has got as far as w, with out to show for it. */
  ghost predicate Reading(g: Geometry, v: View, w: View, n: nat, out: seq<byte>)
    requires ViewOk(g, v) && ViewOk(g, w)
  {
    && Extended(g, v.image, v.chain, w.image, w.chain)
    && |out| <= n && w.offset == v.offset + |out| && v.offset + n <= |Bytes(g, v)|
    && out == Bytes(g, v)[v.offset..v.offset + |out|]
    && (RoomUpTo(g, v, v.offset + n) <==> RoomUpTo(g, w, v.offset + n))
  }

  lemma ReadingStarts(g: Geometry, v: View, n: nat)
    requires ViewOk(g, v) && v.offset + n <= |Bytes(g, v)|
    ensures Reading(g, v, v, n, [])
  {
    ExtendedByNone(g, v.image, v.chain);
  }

  lemma ReadingGoesOn(g: Geometry, v: View, w: View, x: View, n: nat, out: seq<byte>, cnt: nat, err: Err)
    requires ViewOk(g, v) && ViewOk(g, w) && ViewOk(g, x)
    requires Reading(g, v, w, n, out) && Stepped(g, w, x, cnt, v.offset + n, err) && |out| + cnt <= n
    ensures w.offset + cnt <= |Bytes(g, w)| && v.offset + |out| + cnt <= |Bytes(g, v)|
    ensures out + Bytes(g, w)[w.offset..w.offset + cnt] == Bytes(g, v)[v.offset..v.offset + |out| + cnt]
    ensures err.Ok? ==> Reading(g, v, x, n, out + Bytes(g, w)[w.offset..w.offset + cnt])
    ensures Extended(g, v.image, v.chain, x.image, x.chain)
  {
    hide Extended, Table, Layout, RoomUpTo, IsChain, EntriesOk, Covers, FileBytes, FileSize, ClusterIndex;
    ExtendedBytes(g, v.image, v.chain, w.image, w.chain);
    ExtendedTransitive(g, v.image, v.chain, w.image, w.chain, x.image, x.chain);
    var a, b := Bytes(g, v), Bytes(g, w);
    assert b[w.offset..w.offset + cnt] == a[w.offset..w.offset + cnt];
    assert a[v.offset..w.offset] + a[w.offset..w.offset + cnt] == a[v.offset..w.offset + cnt];
  }

  /** At its end a read has delivered everything, and the cluster after the last byte exists. */
  lemma ReadingEnds(g: Geometry, v: View, w: View, n: nat, out: seq<byte>)
    requires ViewOk(g, v) && ViewOk(g, w) && Reading(g, v, w, n, out) && |out| == n
    ensures Extended(g, v.image, v.chain, w.image, w.chain)
    ensures RoomUpTo(g, v, v.offset + n) && v.offset + n <= |Bytes(g, v)| && out == Bytes(g, v)[v.offset..v.offset + n]
  {
    hide Extended, Bytes, RoomUpTo;
    RoomUpToHere(g, w);
  }

  /** Only the last step of a read can fail, for want of a cluster after the last byte. */
  lemma ReadingFails(g: Geometry, v: View, w: View, x: View, n: nat, out: seq<byte>, cnt: nat, size: nat, err: Err)
    requires ViewOk(g, v) && ViewOk(g, w) && ViewOk(g, x)
    requires Reading(g, v, w, n, out) && Stepped(g, w, x, cnt, v.offset + n, err) && |out| + cnt <= n
    requires Holds(g, w.chain, size) && v.offset + n <= size <= NO_SECTOR && !err.Ok?
    ensures err.ErrFull? && !RoomUpTo(g, v, v.offset + n) && |out| + cnt == n && x.offset == w.offset
  {
    hide Extended, Bytes, RoomUpTo, Covers, Holds;
    if |out| + cnt < n {
      HoldsCovers(g, w.chain, w.offset + cnt, size);
    }
  }

  /** The file after chunk has been stored at the cursor, within the current sector. */
  ghost function Poked(g: Geometry, v: View, chunk: seq<byte>): View
    requires ViewOk(g, v) && SectorFor(g, v.chain, v.offset) < |v.image.sectors| && v.offset % 512 + |chunk| <= 512
  {
    var s := SectorFor(g, v.chain, v.offset);
    v.(image := v.image.Put(s, Overwrite(v.image.sectors[s], v.offset % 512, chunk)))
  }

  lemma PokedEffect(g: Geometry, v: View, chunk: seq<byte>)
    requires ViewOk(g, v) && SectorFor(g, v.chain, v.offset) < |v.image.sectors| && v.offset % 512 + |chunk| <= 512
    ensures ViewOk(g, Poked(g, v, chunk)) && v.offset + |chunk| <= |Bytes(g, v)|
    ensures Table(g, Poked(g, v, chunk).image) == Table(g, v.image)
    ensures Bytes(g, Poked(g, v, chunk)) == Overwrite(Bytes(g, v), v.offset, chunk)
    ensures forall I0, q0 | TableFits(g, I0) && Confined(g, I0, q0, v.image, v.chain) ::
              Confined(g, I0, q0, Poked(g, v, chunk).image, v.chain)
  {
    hide Table, Layout, Confined, IsChain, EntriesOk, Covers, FileBytes, FileSize, SectorFor, Overwrite;
    var s := SectorFor(g, v.chain, v.offset);
    DataPutEffect(g, v.image, s, Overwrite(v.image.sectors[s], v.offset % 512, chunk));
    ChainHasNoDuplicates(Table(g, v.image), v.chain);
    PutWithinSector(g, v.image, v.chain, v.offset, chunk);
    forall I0, q0 | TableFits(g, I0) && Confined(g, I0, q0, v.image, v.chain)
      ensures Confined(g, I0, q0, Poked(g, v, chunk).image, v.chain)
    {
      ConfinedByPut(g, I0, q0, v.image, v.chain, v.offset, Overwrite(v.image.sectors[s], v.offset % 512, chunk));
    }
  }

  /** A write of data from v has got as far as w: the first done bytes are in the file, and nothing else has changed. */
  ghost predicate Writing(g: Geometry, v: View, w: View, data: seq<byte>, done: nat)
    requires ViewOk(g, v) && ViewOk(g, w) && done <= |data|
  {
    && Confined(g, v.image, v.chain, w.image, w.chain)
    && w.offset == v.offset + done
    && Written(Bytes(g, v), Bytes(g, w), v.offset, data[..done])
    && (RoomUpTo(g, v, v.offset + |data|) <==> RoomUpTo(g, w, v.offset + |data|))
  }

  lemma WritingStarts(g: Geometry, v: View, data: seq<byte>)
    requires ViewOk(g, v) && v.offset < |Bytes(g, v)|
    ensures Writing(g, v, v, data, 0)
  {
    hide Table, Layout, Confined, IsChain, EntriesOk, FileBytes, RoomUpTo;
    ConfinedFromStart(g, v.image, v.chain);
  }

  lemma WritingGoesOn(g: Geometry, v: View, w: View, x: View, data: seq<byte>, done: nat, cnt: nat, err: Err)
    requires ViewOk(g, v) && ViewOk(g, w) && ViewOk(g, x) && done + cnt <= |data|
    requires SectorFor(g, w.chain, w.offset) < |w.image.sectors| && w.offset % 512 + cnt <= 512
    requires Writing(g, v, w, data, done)
    requires ViewOk(g, Poked(g, w, data[done..done + cnt]))
    requires Stepped(g, Poked(g, w, data[done..done + cnt]), x, cnt, v.offset + |data|, err)
    ensures Confined(g, v.image, v.chain, x.image, x.chain)
    ensures Written(Bytes(g, v), Bytes(g, x), v.offset, data[..done + cnt])
    ensures err.Ok? ==> Writing(g, v, x, data, done + cnt)
    ensures !err.Ok? ==>
              && x.offset == v.offset + done
              && (v.offset + |data| > NO_SECTOR || (err.ErrFull? && !RoomUpTo(g, v, v.offset + |data|)))
  {
    hide Table, Layout, Confined, Extended, IsChain, EntriesOk, Covers, FileBytes, FileSize, SectorFor, Room, ClusterIndex, Overwrite, Written;
    var chunk := data[done..done + cnt];
    var p := Poked(g, w, chunk);
    PokedEffect(g, w, chunk);
    ConfinedByExtension(g, v.image, v.chain, p.image, p.chain, x.image, x.chain);
    ExtendedBytes(g, p.image, p.chain, x.image, x.chain);
    WrittenMore(Bytes(g, v), Bytes(g, w), v.offset, data[..done], chunk, Bytes(g, x));
    assert data[..done] + chunk == data[..done + cnt];
  }

  /** Writing back the file's sector and then the hints of the volume leaves the bytes of the file on the disk. */
  lemma SyncedBytes(g: Geometry, L: Disk, q: seq<nat>, off: nat, dirty: bool, data: Sector, R: Disk, lastUsed: nat, freeCnt: nat)
    requires TableFits(g, L) && 0 < g.spc && OnVolume(g, q) && Covers(g, q, off) && lastUsed < WORD_MOD && freeCnt < WORD_MOD
    requires g.dataSect <= SectorFor(g, q, off) < |L.sectors|
    requires !dirty ==> data == L.sectors[SectorFor(g, q, off)]
    requires var M := L.Put(SectorFor(g, q, off), data); R == M || R == WithInfo(g, M, lastUsed, freeCnt)
    ensures TableFits(g, R) && Table(g, R) == Table(g, L)
    ensures R.sectors[SectorFor(g, q, off)] == data && Overlay(R, dirty, SectorFor(g, q, off), data) == R
    ensures FileBytes(g, R, q) == FileBytes(g, Overlay(L, dirty, SectorFor(g, q, off), data), q)
  {
    hide Table, Layout, WithInfo, FileBytes, SectorFor, InfoIs, Mirrored;
    var s := SectorFor(g, q, off);
    var M := L.Put(s, data);
    assert M == Overlay(L, dirty, s, data) by {
      assert L.sectors[s := L.sectors[s]] == L.sectors;
    }
    DataPutEffect(g, L, s, data);
    KeptReflexive(g, M);
    WithInfoKeeps(g, M, lastUsed, freeCnt);
    assert R.sectors[s := R.sectors[s]] == R.sectors;
    BytesOfPrefix(g, M, R, q, q);
  }

  class File {
    const fat: Fat
    const buf: array<byte>
    const dirSect: nat  // where the short entry of the file stands
    const dirIdx: nat
    const sclust: nat
    const canRead: bool
    const canWrite: bool
    var clust: nat
    var sect: nat       // the sector in buf; NO_SECTOR before the first seek
    var size: nat
    var offset: nat
    var dirty: bool     // FAT_FILE_DIRTY
    var accessed: bool  // FAT_ACCESSED
    var modified: bool  // FAT_MODIFIED
    ghost var chain: seq<nat>

    /** The volume below is in order, and chain is the chain of this file. */
    ghost predicate OnFat()
      reads this`chain, fat, fat.buf
    {
      && fat.Valid()
      && EntriesOk(fat.Entries()) && IsCluster(fat.g, fat.lastUsed)
      && IsChain(fat.Entries(), chain) && chain[0] == sclust
      && OnVolume(fat.g, chain) && Apart(fat.g, chain, fat.sect)
    }

    /** The buffer belongs to the sector of the current offset. */
    ghost predicate Buffered()
      reads this`chain, this`clust, this`sect, this`size, this`offset, this`dirty, fat, fat.buf, buf
    {
      && fat.buf != buf && buf.Length == 512
      && OnFat()
      && offset <= NO_SECTOR && size <= NO_SECTOR && Covers(fat.g, chain, offset) && Holds(fat.g, chain, size)
      && if sect == NO_SECTOR then !dirty else
           && sect == SectorFor(fat.g, chain, offset) && sect < |fat.disk.sectors|
           && (!dirty ==> buf[..] == fat.Logical().sectors[sect])
    }

    /** The cursor stands on the cluster of the current offset. */
    ghost predicate Valid()
      reads this`chain, this`clust, this`sect, this`size, this`offset, this`dirty, fat, fat.buf, buf
    {
      Buffered() && ClusterIndex(fat.g, offset) < |chain| && clust == chain[ClusterIndex(fat.g, offset)]
    }

    /** The disk as this file sees it. */
    ghost function Image(): (L: Disk)
      requires Buffered()
      reads this`chain, this`clust, this`sect, this`size, this`offset, this`dirty, fat, fat.buf, buf
    {
      Overlay(fat.Logical(), dirty, sect, buf[..])
    }

    ghost function Now(): (v: View)
      requires Buffered()
      reads this`chain, this`clust, this`sect, this`size, this`offset, this`dirty, fat, fat.buf, buf
      ensures v.offset == offset && v.image == Image() && v.chain == chain
    {
      View(Image(), chain, fat.lastUsed, offset)
    }

    /** All bytes of the clusters allocated to the file; the file proper is the first size of them. */
    ghost function Contents(): (b: seq<byte>)
      requires Buffered()
      reads this`chain, this`clust, this`sect, this`size, this`offset, this`dirty, fat, fat.buf, buf
    {
      FileBytes(fat.g, Image(), chain)
    }

    /** What opening leaves behind before its first seek. */
    constructor Open(fat: Fat, dirSect: nat, dirIdx: nat, sclust: nat, size: nat, read: bool, write: bool, trunc: bool, ghost chain: seq<nat>)
      requires fat.Valid() && EntriesOk(fat.Entries()) && IsCluster(fat.g, fat.lastUsed)
      requires IsChain(fat.Entries(), chain) && chain[0] == sclust
      requires OnVolume(fat.g, chain) && Apart(fat.g, chain, fat.sect)
      requires size <= NO_SECTOR && Holds(fat.g, chain, size)
      ensures Valid() && this.fat == fat && this.chain == chain && fresh(buf)
      ensures Image() == fat.Logical() && offset == 0 && this.size == if trunc then 0 else size
      ensures this.dirSect == dirSect && this.dirIdx == dirIdx
    {
      this.fat, this.dirSect, this.dirIdx := fat, dirSect, dirIdx;
      buf := new byte[512];
      this.sclust, clust := sclust, sclust;
      canRead, canWrite := read, write;
      sect, offset, dirty, accessed := NO_SECTOR, 0, false, false;
      this.size := if trunc then 0 else size;
      modified := trunc && size > 0;
      this.chain := chain;
      new;
      MulMono(1, |chain|, fat.g.spc);
    }

    /** One step of the walk: to the next cluster, which is appended if there is none. */
    method Advance(ghost at: nat) returns (err: Err)
      requires OnFat() && at < |chain| && clust == chain[at]
      modifies this`clust, this`chain, fat, fat.buf
      ensures OnFat() && old(chain) <= chain
      ensures at + 1 < |old(chain)| ==>
        && err.Ok? && chain == old(chain) && clust == chain[at + 1]
        && fat.Logical() == old(fat.Logical()) && fat.lastUsed == old(fat.lastUsed)
      ensures at + 1 == |old(chain)| ==>
        && err == (if Exhausted(old(fat.Entries()), old(fat.lastUsed), old(clust)) then ErrFull else Ok)
        && (err.ErrFull? ==> chain == old(chain) && clust == old(clust) && fat.Logical() == old(fat.Logical()))
        && (err.Ok? ==>
          && chain == old(chain) + [clust] && NextFit(old(fat.Entries()), old(fat.lastUsed), old(clust), clust)
          && fat.lastUsed == clust && fat.Logical() == StretchedDisk(fat.g, old(fat.Logical()), old(clust), clust, fat.freeCnt))
    {
      hide Table, Layout, StretchedDisk, Exhausted, NextFit, Grown, IsChain, EntriesOk, Classify;
      ghost var t, L, last := fat.Entries(), fat.Logical(), fat.lastUsed;
      ChainStep(t, chain, at);
      var next, kind := fat.GetFat(clust);
      assert !kind.Broken? && !kind.Bad? && !kind.Free?;
      if kind.Last? {
        err, next := fat.StretchChain(clust);
        if err != Ok {
          return;
        }
        NextFitIsFree(t, last, clust, next);
        GrownFromStart(t, chain);
        GrowByOne(t, chain, t, chain, next);
        StretchedDiskEffect(fat.g, L, clust, next, fat.freeCnt);
        chain := chain + [next];
        GrownFacts(t, old(chain), fat.Entries(), chain);
      }
      clust := next;
      return Ok;
    }

    /** The loop of the seek: steps clusters further along the chain, extending it at its end. */
    method Walk(steps: nat, ghost at: nat, ghost extra: nat) returns (err: Err)
      requires OnFat() && at < |chain| && clust == chain[at]
      modifies this`clust, this`chain, fat, fat.buf
      ensures OnFat() && Extended(fat.g, old(fat.Logical()), old(chain), fat.Logical(), chain)
      ensures var need := Missing(|old(chain)|, at + steps);
        && err == (if Room(old(fat.Entries()), old(fat.lastUsed), old(chain)[|old(chain)| - 1], need) then Ok else ErrFull)
        && (err.Ok? ==> |chain| == |old(chain)| + need && clust == chain[at + steps])
        && (err.Ok? ==> (Room(old(fat.Entries()), old(fat.lastUsed), old(chain)[|old(chain)| - 1], need + extra)
                    <==> Room(fat.Entries(), fat.lastUsed, chain[|chain| - 1], extra)))
        && (err.ErrFull? ==> clust == chain[|chain| - 1])
    {
      hide Table, Layout, StretchedDisk, Extended, Room, Exhausted, NextFit, IsChain, EntriesOk;
      ghost var q0, L0 := chain, fat.Logical();
      ghost var need := Missing(|chain|, at + steps);
      ExtendedByNone(fat.g, L0, q0);
      for i := 0 to steps
        invariant OnFat() && at + i < |chain| && clust == chain[at + i]
        invariant |chain| == |q0| + Missing(|q0|, at + i)
        invariant Extended(fat.g, L0, q0, fat.Logical(), chain)
        invariant Room(Table(fat.g, L0), old(fat.lastUsed), q0[|q0| - 1], need)
             <==> Room(fat.Entries(), fat.lastUsed, chain[|chain| - 1], need - (|chain| - |q0|))
        invariant Room(Table(fat.g, L0), old(fat.lastUsed), q0[|q0| - 1], need + extra)
             <==> Room(fat.Entries(), fat.lastUsed, chain[|chain| - 1], need + extra - (|chain| - |q0|))
      {
        ghost var L, q, last := fat.Logical(), chain, fat.lastUsed;
        err := Advance(at + i);
        if err != Ok {
          NoRoomWhenExhausted(Table(fat.g, L), last, clust, need - (|q| - |q0|));
          return;
        }
        if at + i + 1 == |q| {
          ExtendedByOne(fat.g, L0, q0, L, q, last, clust, fat.freeCnt, need - (|q| - |q0|), extra);
        }
      }
      RoomForNone(fat.Entries(), fat.lastUsed, chain[|chain| - 1]);
      return Ok;
    }

    /** From the cluster of the offset, or from the start if that lies behind, to cluster dst of the chain. */
    method WalkTo(dst: nat, ghost extra: nat) returns (err: Err)
      requires OnFat() && 0 < fat.g.spc && ClusterIndex(fat.g, offset) < |chain| && clust == chain[ClusterIndex(fat.g, offset)]
      modifies this`clust, this`chain, this`sect, this`offset, fat, fat.buf
      ensures OnFat() && Extended(fat.g, old(fat.Logical()), old(chain), fat.Logical(), chain)
      ensures var need := Missing(|old(chain)|, dst);
        && err == (if Room(old(fat.Entries()), old(fat.lastUsed), old(chain)[|old(chain)| - 1], need) then Ok else ErrFull)
        && (err.Ok? ==> |chain| == |old(chain)| + need && clust == chain[dst])
        && (err.Ok? ==> (Room(old(fat.Entries()), old(fat.lastUsed), old(chain)[|old(chain)| - 1], need + extra)
                    <==> Room(fat.Entries(), fat.lastUsed, chain[|chain| - 1], extra)))
        && (err.ErrFull? ==> clust == chain[|chain| - 1] && offset == old(offset) && sect == old(sect))
    {
      hide Table, Layout, Extended, Room, Exhausted, IsChain, EntriesOk, ClusterIndex, ClustToSect, Word, Apart, Fat.Logical;
      var src := ClusterIndex(fat.g, offset);
      RoomForNone(fat.Entries(), fat.lastUsed, chain[|chain| - 1]);
      if dst < src {
        clust := sclust;
        sect := ClustToSect(fat.g, sclust);
        offset := 0;
        src := 0;
      }
      err := Walk(dst - src, src, extra);
    }

    ghost function Target(delta: int, whence: Whence): int
      reads this
    {
      delta + match whence case SeekStart => 0 case SeekCurr => offset case SeekEnd => size
    }

    /** The end of the seek: the sector of byte off replaces the sector s in the buffer. */
    method Rebuffer(off: nat, s: nat)
      requires OnFat() && fat.buf != buf && buf.Length == 512
      requires off <= NO_SECTOR && size <= NO_SECTOR && Covers(fat.g, chain, off) && Holds(fat.g, chain, size)
      requires ClusterIndex(fat.g, off) < |chain| && clust == chain[ClusterIndex(fat.g, off)]
      requires if s == NO_SECTOR then !dirty else
          fat.g.dataSect <= s < |fat.disk.sectors| && s != fat.sect && (!dirty ==> buf[..] == fat.Logical().sectors[s])
      modifies this`sect, this`offset, this`dirty, buf, fat`disk
      ensures Valid() && offset == off && sect != NO_SECTOR
      ensures Image() == old(Overlay(fat.Logical(), dirty, s, buf[..])) && fat.Entries() == old(fat.Entries())
    {
      hide Table, Layout, IsChain, EntriesOk, Covers, Holds, FileSize, SectorFor, SectorInCluster, ClusterIndex, ClustToSect, Word;
      ghost var L := fat.Logical();
      LayoutBounds(fat.g, |fat.disk.sectors|);
      SeekSector(fat.g, |fat.disk.sectors|, chain, off, fat.sect);
      sect := ClustToSect(fat.g, clust) + SectorInCluster(fat.g, off);
      offset := off;
      if sect != s {
        if dirty {
          DataPutEffect(fat.g, L, s, buf[..]);
          fat.WriteSector(buf, s);
          dirty := false;
        }
        fat.ReadSector(buf, sect);
      }
    }

    /** Moves the cursor, walking and extending the chain, and swaps the buffered sector if need be. */
    method Seek(delta: int, whence: Whence, ghost extra: nat := 0) returns (err: Err)
      requires Valid()
      modifies this`clust, this`chain, this`sect, this`offset, this`dirty, buf, fat, fat.buf
      ensures Buffered() && TableFits(fat.g, old(Image())) && TableFits(fat.g, Image())
      ensures Extended(fat.g, old(Image()), old(chain), Image(), chain)
      ensures var target := old(Target(delta, whence));
        if !(0 <= target <= NO_SECTOR) then
          err == ErrEof && Valid() && offset == old(offset) && chain == old(chain) && Image() == old(Image())
        else
          var need := Missing(|old(chain)|, ClusterIndex(fat.g, target));
          && err == (if Room(old(fat.Entries()), old(fat.lastUsed), old(chain)[|old(chain)| - 1], need) then Ok else ErrFull)
          && (err.Ok? ==> Valid() && sect != NO_SECTOR && offset == target && |chain| == |old(chain)| + need)
          && (err.Ok? ==> (Room(old(fat.Entries()), old(fat.lastUsed), old(chain)[|old(chain)| - 1], need + extra)
                      <==> Room(fat.Entries(), fat.lastUsed, chain[|chain| - 1], extra)))
          && (err.ErrFull? ==> offset == old(offset) && clust == chain[|chain| - 1])
    {
      hide Table, Layout, Extended, Room, Exhausted, IsChain, EntriesOk, Covers, Holds, FileSize, SectorFor, ClusterIndex, ClustToSect, Word, Overlay, Apart;
      LayoutBounds(fat.g, |fat.disk.sectors|);
      var ssect := sect;
      var off64 := delta + match whence case SeekStart => 0 case SeekCurr => offset case SeekEnd => size;
      ghost var L0, q0, data, o0 := fat.Logical(), chain, buf[..], offset;
      OverlayTable(fat.g, L0, dirty, ssect, data);
      if off64 < 0 || off64 > NO_SECTOR {
        ExtendedByNone(fat.g, Image(), chain);
        return ErrEof;
      }
      var off: nat := off64;
      CoversIff(fat.g, chain, offset);
      err := WalkTo(ClusterIndex(fat.g, off), extra);
      AfterWalk(fat.g, L0, q0, fat.Logical(), chain, dirty, ssect, data, o0, size, fat.sect);
      if err != Ok {
        return;
      }
      CoversIff(fat.g, chain, off);
      Rebuffer(off, ssect);
    }

    lemma NowIsOk()
      requires Buffered()
      ensures ViewOk(fat.g, Now()) && Contents() == Bytes(fat.g, Now()) && Table(fat.g, Image()) == fat.Entries()
      ensures Holds(fat.g, chain, size) && offset < |Contents()| && size <= |Contents()| && size <= NO_SECTOR && offset <= NO_SECTOR
    {
      hide Table, Layout, IsChain, EntriesOk, Covers, Holds, FileSize, SectorFor, Word, FileBytes;
      LayoutBounds(fat.g, |fat.disk.sectors|);
      OverlayTable(fat.g, fat.Logical(), dirty, sect, buf[..]);
      FileLength(fat.g, Image(), chain, offset, size);
    }

    /** Moves on by cnt bytes, on the way to byte end. */
    method Step(cnt: nat, ghost end: nat) returns (err: Err)
      requires Valid() && sect != NO_SECTOR && offset + cnt <= end
      modifies this`clust, this`chain, this`sect, this`offset, this`dirty, buf, fat, fat.buf
      ensures Buffered() && (err.Ok? ==> Valid() && sect != NO_SECTOR)
      ensures ViewOk(fat.g, old(Now())) && ViewOk(fat.g, Now()) && Stepped(fat.g, old(Now()), Now(), cnt, end, err)
      ensures offset == old(offset) + if err.Ok? then cnt else 0
    {
      hide Table, Layout, Extended, Room, IsChain, EntriesOk, Covers, Holds, FileSize, SectorFor, ClusterIndex, FileBytes, Word, Overlay;
      LayoutBounds(fat.g, |fat.disk.sectors|);
      NowIsOk();
      ghost var t, last, prev, n := fat.Entries(), fat.lastUsed, chain[|chain| - 1], |chain|;
      ClusterIndexMono(fat.g, offset + cnt, end);
      CoversIff(fat.g, chain, offset + cnt);
      RoomForNone(t, last, prev);
      MissingSplit(n, ClusterIndex(fat.g, offset + cnt), ClusterIndex(fat.g, end));
      ghost var need := Missing(n, ClusterIndex(fat.g, offset + cnt));
      if Room(t, last, prev, Missing(n, ClusterIndex(fat.g, end))) {
        RoomForFewer(t, last, prev, Missing(n, ClusterIndex(fat.g, end)), need);
      }
      err := Seek(cnt, SeekCurr, Missing(n + need, ClusterIndex(fat.g, end)));
      NowIsOk();
    }

    /** Copies cnt bytes of the current sector out and moves on. */
    method Fetch(cnt: nat, ghost end: nat) returns (err: Err, chunk: seq<byte>)
      requires Valid() && sect != NO_SECTOR && offset + cnt <= end && offset % 512 + cnt <= 512
      modifies this`clust, this`chain, this`sect, this`offset, this`dirty, buf, fat, fat.buf
      ensures Buffered() && (err.Ok? ==> Valid() && sect != NO_SECTOR)
      ensures ViewOk(fat.g, old(Now())) && ViewOk(fat.g, Now()) && Stepped(fat.g, old(Now()), Now(), cnt, end, err)
      ensures offset == old(offset) + if err.Ok? then cnt else 0
      ensures old(offset) + cnt <= |Bytes(fat.g, old(Now()))| && chunk == Bytes(fat.g, old(Now()))[old(offset)..old(offset) + cnt]
    {
      hide Table, Layout, IsChain, EntriesOk, Covers, Holds, FileSize, SectorFor, FileBytes, Word, Extended, RoomUpTo;
      NowIsOk();
      SliceWithinSector(fat.g, Image(), chain, offset, cnt);
      var idx := offset % 512;
      assert Image().sectors[sect] == buf[..];
      chunk := buf[idx..idx + cnt];
      err := Step(cnt, end);
    }

    /** Reads up to len bytes below size from the cursor on. */
    method Read(len: nat) returns (err: Err, out: seq<byte>)
      requires Valid() && sect != NO_SECTOR
      modifies this`accessed, this`clust, this`chain, this`sect, this`offset, this`dirty, buf, fat, fat.buf
      ensures Buffered() && (!err.ErrFull? ==> Valid() && sect != NO_SECTOR)
      ensures ViewOk(fat.g, old(Now())) && ViewOk(fat.g, Now())
      ensures !canRead ==> err == ErrDenied && out == [] && Now() == old(Now())
      ensures canRead ==>
        var n := Readable(old(offset), size, len);
        && Extended(fat.g, old(Image()), old(chain), Image(), chain)
        && err == (if n == 0 || RoomUpTo(fat.g, old(Now()), old(offset) + n) then Ok else ErrFull)
        && old(offset) + n <= |old(Contents())| && out == old(Contents())[old(offset)..old(offset) + n]
        && (err.Ok? ==> offset == old(offset) + n)
        && (err.ErrFull? ==> offset < old(offset) + n)
    {
      hide Table, Layout, Extended, RoomUpTo, IsChain, EntriesOk, Covers, Holds, FileSize, SectorFor, FileBytes, Chunk, Readable;
      hide Stepped, Reading, ViewOk, Bytes, Valid, Buffered, Now;
      ValidIsBuffered();
      NowIsOk();
      ghost var v, n := Now(), Readable(offset, size, len);
      ReadableBounds(offset, size, len);
      ReadingStarts(fat.g, v, n);
      out := [];
      if !canRead {
        return ErrDenied, out;
      }
      accessed := true;
      var rest := len;
      while rest > 0 && offset < size
        invariant Buffered() && Valid() && sect != NO_SECTOR && 0 <= rest
        invariant ViewOk(fat.g, Now()) && Reading(fat.g, v, Now(), n, out)
        invariant |out| + Readable(offset, size, rest) == n && offset == v.offset + |out|
      {
        ghost var w, was := Now(), out;
        NowIsOk();
        var cnt := Chunk(offset, Readable(offset, size, rest));
        ReadableBounds(offset, size, rest);
        ChunkFits(offset, Readable(offset, size, rest));
        ReadableAfter(offset, size, rest, cnt);
        var chunk;
        err, chunk := Fetch(cnt, v.offset + n);
        ReadingGoesOn(fat.g, v, w, Now(), n, out, cnt, err);
        out := out + chunk;
        rest := rest - cnt;
        if err != Ok {
          ReadingFails(fat.g, v, w, Now(), n, was, cnt, size, err);
          return;
        }
      }
      ReadableBounds(offset, size, rest);
      ReadingEnds(fat.g, v, Now(), n, out);
      return Ok, out;
    }

    /** Stores chunk in the buffer at the cursor. */
    method Poke(chunk: seq<byte>)
      requires Valid() && sect != NO_SECTOR && offset % 512 + |chunk| <= 512
      modifies this`dirty, buf
      ensures Valid() && sect != NO_SECTOR
      ensures ViewOk(fat.g, old(Now())) && SectorFor(fat.g, chain, offset) < |old(Now()).image.sectors|
      ensures Now() == Poked(fat.g, old(Now()), chunk)
    {
      hide Table, Layout, IsChain, EntriesOk, Covers, Holds, FileSize, SectorFor, Word;
      NowIsOk();
      ghost var was, I := buf[..], Image();
      var idx := offset % 512;
      forall i | 0 <= i < |chunk| {
        buf[idx + i] := chunk[i];
      }
      dirty := true;
      assert buf[..] == Overwrite(was, idx, chunk);
      assert fat.Logical().sectors[sect := was][sect := buf[..]] == fat.Logical().sectors[sect := buf[..]];
    }

    /**
     * Writes data at the cursor, allocating clusters as needed; inner is the outcome of the last seek,
     * which the caller does not get to see: err is Ok even if the volume ran full.
     */
    method Write(data: seq<byte>) returns (err: Err, bytes: nat, ghost inner: Err)
      requires Valid() && sect != NO_SECTOR
      modifies this, buf, fat, fat.buf
      ensures Buffered() && ViewOk(fat.g, old(Now())) && ViewOk(fat.g, Now())
      ensures !canWrite ==> err == ErrDenied && bytes == 0 && Now() == old(Now()) && size == old(size)
      ensures canWrite ==>
        && err.Ok? && modified && bytes <= |data|
        && Confined(fat.g, old(Image()), old(chain), Image(), chain)
        && Written(old(Contents()), Contents(), old(offset), data[..bytes])
        && size == (if offset > old(size) then offset else old(size))
        && (inner.Ok? <==> |data| == 0 || (old(offset) + |data| <= NO_SECTOR && RoomUpTo(fat.g, old(Now()), old(offset) + |data|)))
        && (inner.Ok? ==> bytes == |data| && offset == old(offset) + |data| && Valid() && sect != NO_SECTOR)
        && (!inner.Ok? ==> offset < old(offset) + bytes)
    {
      hide Table, Layout, Confined, Written, RoomUpTo, IsChain, EntriesOk, Covers, Holds, FileSize, SectorFor, FileBytes, Chunk;
      hide Stepped, ViewOk, Bytes, Valid, Buffered, Now;
      ValidIsBuffered();
      NowIsOk();
      bytes, inner := 0, Ok;
      if !canWrite {
        return ErrDenied, 0, Ok;
      }
      ghost var v := Now();
      WritingStarts(fat.g, v, data);
      modified, accessed := true, true;
      err := Ok;
      while bytes < |data|
        invariant Buffered() && Valid() && sect != NO_SECTOR && bytes <= |data|
        invariant ViewOk(fat.g, Now()) && Writing(fat.g, v, Now(), data, bytes) && offset == v.offset + bytes
        invariant size == old(size) && modified && inner.Ok?
      {
        ghost var w := Now();
        var cnt := Chunk(offset, |data| - bytes);
        ChunkFits(offset, |data| - bytes);
        Poke(data[bytes..bytes + cnt]);
        var status := Step(cnt, v.offset + |data|);
        inner := status;
        WritingGoesOn(fat.g, v, w, Now(), data, bytes, cnt, inner);
        bytes := bytes + cnt;
        if status != Ok {
          break;
        }
      }
      RoomUpToHere(fat.g, Now());
      CommitSize();
      NowIsOk();
    }

    /** The end of a write: the file is at least as long as the cursor says. */
    method CommitSize()
      requires Buffered()
      modifies this`size
      ensures Buffered() && Now() == old(Now()) && (old(Valid()) ==> Valid())
      ensures size == if offset > old(size) then offset else old(size)
    {
      hide Table, Layout, IsChain, EntriesOk, FileSize, SectorFor, Word;
      if offset > size {
        size := offset;
      }
    }

    lemma ValidIsBuffered()
      requires Valid()
      ensures Buffered()
    {
    }

    /** With the cursor's cluster at the end of the chain, the handle is in order exactly if the offset is there too. */
    lemma ValidAtEnd()
      requires Buffered() && clust == chain[|chain| - 1]
      ensures Valid() <==> ClusterIndex(fat.g, offset) == |chain| - 1
    {
      hide Table, Layout, EntriesOk, Covers, Holds, ClusterIndex;
      LayoutBounds(fat.g, |fat.disk.sectors|);
      CoversIff(fat.g, chain, offset);
      ChainHasNoDuplicates(fat.Entries(), chain);
    }

    /** The short entry of the file stands in a sector of the data area that is not part of the file. */
    ghost predicate HasEntry()
      reads this`chain, fat
    {
      dirIdx + 32 <= 512 && 0 < fat.g.spc && fat.g.dataSect <= dirSect < |fat.disk.sectors| && Apart(fat.g, chain, dirSect)
    }

    /**
     * Writes the buffer, the entry of the file and everything the volume holds back to the disk. The entry is
     * stamped as the flags say; the rest of its sector stays as it was.
     */
    method Sync(date: nat, time: nat)
      requires Valid() && sect != NO_SECTOR && HasEntry() && date < 0x1_0000 && time < 0x1_0000
      modifies this`accessed, this`modified, fat, fat.buf
      ensures Valid() && !fat.bufDirty && !fat.infoDirty && !accessed && !modified
      ensures OnVolume(fat.g, chain) && TableFits(fat.g, fat.disk)
      ensures FileBytes(fat.g, fat.disk, chain) == old(Contents()) && Contents() == old(Contents())
      ensures |fat.disk.sectors| == |old(fat.disk).sectors|
      ensures var s := old(fat.Logical()).sectors[dirSect];
        fat.disk.sectors[dirSect] ==
          if old(accessed || modified) then Overwrite(s, dirIdx, Stamped(s[dirIdx..dirIdx + 32], old(accessed), old(modified), size, date, time)) else s
    {
      hide Table, Layout, IsChain, EntriesOk, Covers, Holds, FileSize, FileBytes, SectorInCluster, Word, WithInfo, Overwrite, Stamped, SectorFor, ClusterIndex, Apart, Mirrored, OnVolume;
      LayoutBounds(fat.g, |fat.disk.sectors|);
      ghost var g, L, data := fat.g, fat.Logical(), buf[..];
      SeekSector(g, |fat.disk.sectors|, chain, offset, dirSect);
      Flush(date, time);
      ghost var e: Sector := fat.Logical().sectors[dirSect];
      ApartPut(g, L, chain, dirty, sect, data, dirSect, e);
      InfoAway(g, fat.Logical(), fat.lastUsed, fat.freeCnt, dirSect);
      fat.SyncFs();
      SyncedBytes(g, L.Put(dirSect, e), chain, offset, dirty, data, fat.Logical(), fat.lastUsed, fat.freeCnt);
      MetaApart(g, chain, g.infoSect);
      modified, accessed := false, false;
    }

    /** The two writes in front of sync_fs. */
    method Flush(date: nat, time: nat)
      requires Valid() && sect != NO_SECTOR && HasEntry() && sect != dirSect && date < 0x1_0000 && time < 0x1_0000
      modifies fat`disk, fat`bufDirty, fat`sect, fat.buf
      ensures fat.Valid() && (fat.sect == old(fat.sect) || fat.sect == dirSect)
      ensures var s := old(fat.Logical()).sectors[dirSect];
        sect < |old(fat.disk).sectors| && fat.Logical() == old(fat.Logical()).Put(dirSect,
          if accessed || modified then Overwrite(s, dirIdx, Stamped(s[dirIdx..dirIdx + 32], accessed, modified, size, date, time)) else s).Put(sect, buf[..])
    {
      hide Table, Layout, IsChain, EntriesOk, Covers, Holds, FileSize, SectorInCluster, Overwrite, Stamped, SectorFor, ClusterIndex;
      LayoutBounds(fat.g, |fat.disk.sectors|);
      ghost var L := fat.Logical();
      SeekSector(fat.g, |fat.disk.sectors|, chain, offset, fat.sect);
      fat.WriteSector(buf, sect);
      WriteEntry(date, time);
      ghost var e := fat.Logical().sectors[dirSect];
      assert L.sectors[sect := buf[..]][dirSect := e] == L.sectors[dirSect := e][sect := buf[..]];
    }

    /** The part of the sync that stamps the entry. */
    method WriteEntry(date: nat, time: nat)
      requires fat.Valid() && HasEntry() && date < 0x1_0000 && time < 0x1_0000 && size <= NO_SECTOR
      modifies fat`disk, fat`bufDirty, fat`sect, fat.buf
      ensures fat.Valid() && (fat.sect == old(fat.sect) || fat.sect == dirSect)
      ensures var s := old(fat.Logical()).sectors[dirSect];
        fat.Logical() == old(fat.Logical()).Put(dirSect,
          if accessed || modified then Overwrite(s, dirIdx, Stamped(s[dirIdx..dirIdx + 32], accessed, modified, size, date, time)) else s)
    {
      hide Table, Layout, Stamped;
      LayoutBounds(fat.g, |fat.disk.sectors|);
      if accessed || modified {
        fat.UpdateBuf(dirSect);
        fat.StoreBytes(dirIdx, Stamped(fat.buf[dirIdx..dirIdx + 32], accessed, modified, size, date, time));
      } else {
        assert fat.Logical().sectors[dirSect := fat.Logical().sectors[dirSect]] == fat.Logical().sectors;
      }
    }
  }

  /** The short entry with its time stamps and, if the file was written to, its archive flag and its size. */
  function Stamped(e: seq<byte>, accessed: bool, modified: bool, size: nat, date: nat, time: nat): (r: seq<byte>)
    requires |e| == 32 && size < WORD_MOD && date < 0x1_0000 && time < 0x1_0000
    ensures |r| == 32
  {
    var a := if accessed then e[18 := date % 0x100][19 := date / 0x100] else e;
    if !modified then a
    else
      a[11 := if a[11] as int / 32 % 2 == 1 then a[11] else a[11] + 32]
       [22 := time % 0x100][23 := time / 0x100][24 := date % 0x100][25 := date / 0x100]
       [28 := ByteOf(size, 0)][29 := ByteOf(size, 1)][30 := ByteOf(size, 2)][31 := ByteOf(size, 3)]
  }

  function EntrySize(e: seq<byte>): nat
    requires |e| == 32
  {
    e[28] as int + 0x100 * e[29] as int + 0x1_0000 * e[30] as int + 0x100_0000 * e[31] as int
  }

  /** The size reads back; name, creation stamps, first cluster and all attributes but the archive flag are not touched. */
  lemma StampedKeeps(e: seq<byte>, accessed: bool, modified: bool, size: nat, date: nat, time: nat)
    requires |e| == 32 && size < WORD_MOD && date < 0x1_0000 && time < 0x1_0000
    ensures var r := Stamped(e, accessed, modified, size, date, time);
      && EntrySize(r) == (if modified then size else EntrySize(e))
      && (forall i :: 0 <= i < 32 && !(i == 11 || 18 <= i < 20 || 22 <= i < 26 || 28 <= i) ==> r[i] == e[i])
      && r[11] as int % 32 == e[11] as int % 32 && (modified ==> r[11] as int / 32 % 2 == 1)
  {
    BytesOfWord(size);
  }

  /** A sector outside the file has no bearing on its bytes, whatever is in its buffer. */
  lemma ApartPut(g: Geometry, L: Disk, q: seq<nat>, dirty: bool, sect: nat, data: Sector, s: nat, e: Sector)
    requires TableFits(g, L) && 0 < g.spc && OnVolume(g, q) && g.dataSect <= s < |L.sectors| && Apart(g, q, s)
    requires g.dataSect <= sect < |L.sectors| && s != sect
    ensures TableFits(g, L.Put(s, e)) && Table(g, L.Put(s, e)) == Table(g, L)
    ensures TableFits(g, Overlay(L, dirty, sect, data)) && TableFits(g, Overlay(L.Put(s, e), dirty, sect, data))
    ensures FileBytes(g, Overlay(L.Put(s, e), dirty, sect, data), q) == FileBytes(g, Overlay(L, dirty, sect, data), q)
    ensures L.Put(s, e).Put(sect, data) == L.Put(sect, data).Put(s, e)
  {
    hide Table, Layout;
    DataPutEffect(g, L, s, e);
    var A, B := Overlay(L, dirty, sect, data), Overlay(L.Put(s, e), dirty, sect, data);
    assert L.sectors[s := e][sect := data] == L.sectors[sect := data][s := e];
    forall o | 0 <= o < FileSize(g, q)
      ensures FileBytes(g, A, q)[o] == FileBytes(g, B, q)[o]
    {
      SectorOfBounds(g, |A.sectors|, q, o / 512);
      SectorOfApart(g, |A.sectors|, q, o / 512, s);
    }
  }

  lemma MetaApart(g: Geometry, q: seq<nat>, s: nat)
    requires 0 < g.spc && s < g.dataSect
    ensures Apart(g, q, s)
  {
  }

  lemma InfoAway(g: Geometry, M: Disk, lastUsed: nat, freeCnt: nat, s: nat)
    requires TableFits(g, M) && lastUsed < WORD_MOD && freeCnt < WORD_MOD && g.dataSect <= s < |M.sectors|
    ensures WithInfo(g, M, lastUsed, freeCnt).sectors[s] == M.sectors[s]
  {
  }

  /** A write that got its cursor to the end can be read back, byte for byte. */
  method WriteThenRead(f: File, data: seq<byte>) returns (complete: bool, back: seq<byte>)
    requires f.Valid() && f.sect != NO_SECTOR && f.canRead && f.canWrite
    modifies f, f.buf, f.fat, f.fat.buf
    ensures complete ==> back == data
    ensures ViewOk(f.fat.g, old(f.Now()))
    ensures complete == (|data| == 0 || (old(f.offset) + |data| <= NO_SECTOR && RoomUpTo(f.fat.g, old(f.Now()), old(f.offset) + |data|)))
  {
    hide Table, Layout, Confined, Written, Extended, RoomUpTo, IsChain, EntriesOk, Covers, Holds, FileSize, SectorFor, FileBytes, ClusterIndex, Room;
    ghost var g := f.fat.g;
    var at := f.offset;
    f.NowIsOk();
    var err, bytes, inner := f.Write(data);
    complete := f.offset == at + |data|;
    assert bytes == |data| ==> data[..bytes] == data;
    back := [];
    if complete {
      f.NowIsOk();
      ghost var v := f.Now();
      CoversIff(g, v.chain, v.offset);
      ClusterIndexMono(g, at, v.offset);
      RoomForNone(f.fat.Entries(), f.fat.lastUsed, v.chain[|v.chain| - 1]);
      err := f.Seek(at, SeekStart);
      f.NowIsOk();
      ghost var w := f.Now();
      ExtendedBytes(g, v.image, v.chain, w.image, w.chain);
      CoveredAhead(g, v, w);
      err, back := f.Read(|data|);
      assert back == data by {
        WrittenSlice(old(f.Contents()), Bytes(g, v), at, data, Bytes(g, w));
      }
    }
  }

  /**
   * A seek that runs out of clusters leaves the offset where it was and the cluster at the end of the chain. The
   * sector that a seek by 0 would take next is then the right one exactly if the offset lies in the last cluster.
   */
  method SeekPastFull(f: File, delta: int, whence: Whence) returns (err: Err, next: nat)
    requires f.Valid()
    modifies f`clust, f`chain, f`sect, f`offset, f`dirty, f.buf, f.fat, f.fat.buf
    ensures f.Buffered() && 0 < f.fat.g.spc && Covers(f.fat.g, f.chain, f.offset)
    ensures err.ErrFull? ==>
      && f.offset == old(f.offset)
      && (next == SectorFor(f.fat.g, f.chain, f.offset) <==> ClusterIndex(f.fat.g, f.offset) == |f.chain| - 1)
      && (f.Valid() <==> ClusterIndex(f.fat.g, f.offset) == |f.chain| - 1)
      && (f.offset == 0 && 1 < |f.chain| ==> next != SectorFor(f.fat.g, f.chain, f.offset))
  {
    hide Table, Layout, Extended, Room, Exhausted, EntriesOk, Covers, Holds, FileSize, SectorFor, Missing, Overlay, FileBytes, ClusterIndex, ClustToSect;
    err := f.Seek(delta, whence);
    LayoutBounds(f.fat.g, |f.fat.disk.sectors|);
    next := 0;
    if err == ErrFull {
      f.ValidAtEnd();
      FirstCluster(f.fat.g);
      SeekSectorIff(f.fat.g, |f.fat.disk.sectors|, f.chain, f.clust, f.offset);
      next := ClustToSect(f.fat.g, f.clust) + SectorInCluster(f.fat.g, f.offset);
    }
  }

  lemma FirstCluster(g: Geometry)
    requires 0 < g.spc
    ensures ClusterIndex(g, 0) == 0
  {
  }

  /** What an earlier position of the cursor needed is still there. */
  lemma CoveredAhead(g: Geometry, v: View, w: View)
    requires ViewOk(g, v) && ViewOk(g, w) && v.chain <= w.chain
    ensures RoomUpTo(g, w, v.offset)
  {
    CoversIff(g, v.chain, v.offset);
  }

  lemma WrittenSlice(c0: seq<byte>, c: seq<byte>, off: nat, d: seq<byte>, c': seq<byte>)
    requires Written(c0, c, off, d) && c <= c'
    ensures off + |d| <= |c'| && c'[off..off + |d|] == d
  {
    assert forall i :: 0 <= i < |c| ==> c'[i] == c[i];
  }
}
