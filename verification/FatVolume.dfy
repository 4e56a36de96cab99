// A mounted FAT32 volume: one sector buffer in front of the disk, the mirrored
// allocation table behind it, and the allocator of clusters on top.
module FatVolume {
  import opened Machine
  import opened FatDisk
  import opened FatChains

  /** ErrFlags is the result of a call that returns flags of an entry in place of an error; NoReturn stands for one that does not return. */
  datatype Err = Ok | ErrBroken | ErrEof | ErrFull | ErrParam | ErrDenied | ErrFlags | NoReturn

  function ErrOf(r: Search): Err {
    match r
    case Found => Ok
    case Full => ErrFull
    case BadNeighbour => ErrBroken
    case BadEntry => ErrFlags
    case Endless => NoReturn
  }

  const UNKNOWN: nat := 0xffff_ffff

  class Fat {
    const g: Geometry
    const buf: array<byte>
    var disk: Disk       // what the disk operations read and write; they are assumed to succeed
    var sect: nat        // the sector in buf; 0 until something has been read
    var bufDirty: bool   // FAT_BUF_DIRTY
    var infoDirty: bool  // FAT_INFO_DIRTY
    var lastUsed: nat
    var freeCnt: nat

    ghost predicate Valid()
      reads this, buf
    {
      && buf.Length == 512
      && TableFits(g, disk)
      && sect < |disk.sectors|
      && lastUsed < UNKNOWN && freeCnt < WORD_MOD
      && (bufDirty ==> 0 < sect)
      && (!bufDirty && 0 < sect ==> buf[..] == disk.sectors[sect])
    }

    /** The disk as every reader through the buffer sees it. */
    ghost function Logical(): (L: Disk)
      requires Valid()
      reads this, buf
      ensures |L.sectors| == |disk.sectors|
    {
      if bufDirty then disk.Put(sect, buf[..]) else disk
    }

    ghost function Entries(): (t: seq<nat>)
      requires Valid()
      reads this, buf
    {
      Table(g, Logical())
    }

    /** Everything is on the disk, the allocation hints included. */
    ghost predicate Synced()
      requires Valid()
      reads this, buf
    {
      !bufDirty && !infoDirty && disk == Logical() && InfoIs(g, disk, lastUsed, freeCnt)
    }

    /** The state right after mounting: nothing is buffered yet. A volume whose hints are unknown is not mounted. */
    constructor Mount(g: Geometry, disk: Disk)
      requires TableFits(g, disk)
      requires Word(disk.sectors[g.infoSect], INFO_NEXT) != UNKNOWN && Word(disk.sectors[g.infoSect], INFO_FREE) != UNKNOWN
      ensures Valid() && Logical() == disk && fresh(buf)
      ensures this.g == g && !bufDirty && !infoDirty && InfoIs(g, disk, lastUsed, freeCnt)
    {
      this.g := g;
      this.disk := disk;
      buf := new byte[512];
      sect, bufDirty, infoDirty := 0, false, false;
      lastUsed := Word(disk.sectors[g.infoSect], INFO_NEXT);
      freeCnt := Word(disk.sectors[g.infoSect], INFO_FREE);
    }

    // ---- The sector buffer

    method SyncBuf()
      requires Valid()
      modifies this`disk, this`bufDirty
      ensures Valid() && Logical() == old(Logical()) && !bufDirty
    {
      if bufDirty {
        disk := disk.Put(sect, buf[..]);
        bufDirty := false;
      }
    }

    method UpdateBuf(s: nat)
      requires Valid() && 0 < s < |disk.sectors|
      modifies this`disk, this`bufDirty, this`sect, buf
      ensures Valid() && Logical() == old(Logical())
      ensures sect == s && buf[..] == Logical().sectors[s]
    {
      if sect != s {
        SyncBuf();
        var data := disk.sectors[s];
        forall i | 0 <= i < 512 {
          buf[i] := data[i];
        }
        assert buf[..] == data;
        sect := s;
      }
    }

    /** Stores a 32-bit word in the buffered sector. */
    method StoreWord(i: nat, w: nat)
      requires Valid() && 0 < sect && i < 128 && w < WORD_MOD
      modifies this`bufDirty, buf
      ensures Valid() && bufDirty
      ensures Logical() == old(Logical()).Put(sect, WithWord(old(buf[..]), i, w))
    {
      ghost var was := buf[..];
      buf[4 * i], buf[4 * i + 1], buf[4 * i + 2], buf[4 * i + 3] := ByteOf(w, 0), ByteOf(w, 1), ByteOf(w, 2), ByteOf(w, 3);
      assert buf[..] == WithWord(was, i, w);
      bufDirty := true;
    }

    /** Overwrites bytes of the buffered sector. */
    method StoreBytes(at: nat, data: seq<byte>)
      requires Valid() && 0 < sect && at + |data| <= 512
      modifies this`bufDirty, buf
      ensures Valid() && bufDirty
      ensures Logical() == old(Logical()).Put(sect, old(buf[..at]) + data + old(buf[at + |data|..]))
    {
      ghost var was := buf[..];
      forall i | 0 <= i < |data| {
        buf[at + i] := data[i];
      }
      assert buf[..] == was[..at] + data + was[at + |data|..];
      bufDirty := true;
    }

    /** Fills a cluster with zeros, sector by sector from the one buffer. */
    method ClustClear(clust: nat)
      requires Valid() && IsCluster(g, clust)
      modifies this`disk, this`bufDirty, this`sect, buf
      ensures Valid() && !bufDirty && ClearedUpTo(g, old(Logical()), Logical(), clust, g.spc)
    {
      hide Layout, Word;
      LayoutBounds(g, |disk.sectors|);
      SyncBuf();
      ghost var L := disk;
      var s := ClustToSect(g, clust);
      forall i | 0 <= i < 512 {
        buf[i] := 0;
      }
      ghost var zeros := buf[..];
      assert zeros == Zeros();
      for i := 0 to g.spc
        invariant buf[..] == Zeros() && !bufDirty && s == ClustToSect(g, clust) + i
        invariant TableFits(g, disk) && ClearedUpTo(g, L, disk, clust, i)
        invariant 0 < i ==> Valid()
      {
        ClusterSector(g, |disk.sectors|, clust, i);
        bufDirty := true;
        sect := s;
        s := s + 1;
        SyncBuf();
      }
    }

    method SyncFs()
      requires Valid()
      modifies this`disk, this`bufDirty, this`infoDirty, this`sect, buf
      ensures Valid() && !bufDirty && !infoDirty
      ensures sect == if old(infoDirty) then g.infoSect else old(sect)
      ensures Logical() == if old(infoDirty) then WithInfo(g, old(Logical()), lastUsed, freeCnt) else old(Logical())
      ensures old(infoDirty || InfoIs(g, Logical(), lastUsed, freeCnt)) ==> Synced()
    {
      hide Word, WithWord, InfoIs, Table;
      WithInfoEffect(g, Logical(), lastUsed, freeCnt);
      SyncBuf();
      if infoDirty {
        ghost var L := Logical();
        UpdateBuf(g.infoSect);
        StoreWord(INFO_NEXT, lastUsed);
        ghost var half := buf[..];
        assert half == Logical().sectors[sect];
        StoreWord(INFO_FREE, freeCnt);
        L.PutTwice(sect, half, WithWord(half, INFO_FREE, freeCnt));
        SyncBuf();
        infoDirty := false;
      }
    }

    // ---- Sectors that bypass the buffer, as the file layer uses them

    method WriteSector(data: array<byte>, s: nat)
      requires Valid() && data.Length == 512 && s < |disk.sectors| && s != sect
      modifies this`disk
      ensures Valid() && Logical() == old(Logical()).Put(s, data[..])
    {
      ghost var L := disk;
      disk := disk.Put(s, data[..]);
      assert disk.sectors[sect := buf[..]] == L.sectors[sect := buf[..]][s := data[..]];
    }

    method ReadSector(data: array<byte>, s: nat)
      requires Valid() && data != buf && data.Length == 512 && s < |disk.sectors| && s != sect
      modifies data
      ensures data[..] == Logical().sectors[s]
    {
      var d := disk.sectors[s];
      forall i | 0 <= i < 512 {
        data[i] := d[i];
      }
      assert data[..] == d;
    }

    // ---- The allocation table

    method GetFat(clust: nat) returns (val: nat, kind: Kind)
      requires Valid() && clust < g.clustCnt
      modifies this`disk, this`bufDirty, this`sect, buf
      ensures Valid() && Logical() == old(Logical()) && sect < g.dataSect
      ensures val == Entries()[clust] && kind == Classify(val, g.clustCnt)
    {
      hide Word;
      assert IsCopy(g, g.fat0);
      UpdateBuf(g.fat0 + clust / 128);
      val := Word(buf[..], clust % 128) % ENTRY_MOD;
      if val == 0 {
        kind := Free;
      } else if val == BAD {
        kind := Bad;
      } else if val >= LAST_MIN {
        kind := Last;
      } else if val >= 2 && val < g.clustCnt {
        kind := Used;
      } else {
        kind := Broken;
      }
    }

    method PutFat2(base: nat, clust: nat, val: nat)
      requires Valid() && IsCopy(g, base) && clust < g.clustCnt
      modifies this`disk, this`bufDirty, this`sect, buf
      ensures Valid() && sect < g.dataSect
      ensures Logical() == PutRaw(g, old(Logical()), base, clust, val)
    {
      hide Word, WithWord;
      var s := base + clust / 128;
      UpdateBuf(s);
      var raw := Word(buf[..], clust % 128);
      StoreWord(clust % 128, Merge(raw, val));
    }

    method PutFat(clust: nat, val: nat)
      requires Valid() && clust < g.clustCnt
      modifies this`disk, this`bufDirty, this`sect, buf
      ensures Valid() && sect < g.dataSect
      ensures Logical() == PutEntry(g, old(Logical()), clust, val)
    {
      if g.fat1 != 0 {
        PutFat2(g.fat1, clust, val);
      }
      PutFat2(g.fat0, clust, val);
    }

    // ---- Chains

    /** Frees every entry from clust on, until an end mark or a malformed chain stops it. */
    method RemoveChain(clust: nat) returns (err: Err)
      requires Valid() && clust < g.clustCnt
      modifies this, buf
      ensures Valid() && lastUsed == old(lastUsed) && sect < g.dataSect
      ensures var r := FreeOnDisk(g, old(Logical()), clust);
        && err == (if r.ok then Ok else ErrBroken)
        && freeCnt == Wrap(old(freeCnt) + r.count)
        && Logical() == (if r.ok then WithInfo(g, r.L, lastUsed, freeCnt) else r.L)
        && (r.ok ==> Synced())
    {
      hide Layout, Table, Word, WithWord, PutEntry, WithInfo, Wrap, Synced, FreeCount;
      LayoutBounds(g, |disk.sectors|);
      WrapSmall(freeCnt);
      ghost var L0 := Logical();
      ghost var n: nat := 0;
      var c: nat := clust;
      infoDirty := true;
      while true
        invariant Valid() && infoDirty && c < g.clustCnt && lastUsed == old(lastUsed)
        invariant freeCnt == Wrap(old(freeCnt) + n)
        invariant var r := FreeOnDisk(g, Logical(), c); FreeOnDisk(g, L0, clust) == r.(count := n + r.count)
        decreases g.clustCnt - FreeCount(Entries())
      {
        ghost var L := Logical();
        var next, kind := GetFat(c);
        if kind.Broken? || kind.Bad? || kind.Free? {
          return ErrBroken;
        }
        PutFat(c, 0);
        FreesOne(g, L, c);
        freeCnt := Wrap(freeCnt + 1);
        WrapSum(old(freeCnt) + n, 1);
        n := n + 1;
        if kind.Last? {
          break;
        }
        c := next;
      }
      SyncFs();
      return Ok;
    }

    /**
     * The search of stretch_chain: the neighbour of prev, else the first free entry after lastUsed, or a malformed one in
     * front of it. A scan that goes round for ever is left after one round.
     */
    method FindFree(prev: nat) returns (r: Search, clust: nat)
      requires Valid() && (prev == 0 || IsCluster(g, prev))
      modifies this`disk, this`bufDirty, this`sect, buf
      ensures Valid() && Logical() == old(Logical()) && sect < g.dataSect
      ensures Searched(Entries(), lastUsed, prev, r, clust) && clust < g.clustCnt
    {
      hide Table, Layout, Word, Scanned, Rank;
      LayoutBounds(g, |disk.sectors|);
      ghost var t, last := Entries(), lastUsed;
      var next, kind;
      clust := prev;
      if prev != 0 {
        clust := After(g.clustCnt, clust);
        next, kind := GetFat(clust);
        assert kind == Classify(t[clust], g.clustCnt);
        if kind.Broken? {
          return BadNeighbour, 0;
        }
        if kind.Free? {
          return Found, clust;
        }
      }
      clust := lastUsed;
      ghost var seen: nat := 0;
      NothingSeen(t, lastUsed);
      while true
        invariant Valid() && Logical() == old(Logical()) && Entries() == t
        invariant prev != 0 ==> !Stops(t, After(g.clustCnt, prev))
        invariant clust == lastUsed || (Scanned(g.clustCnt, lastUsed, clust) && sect < g.dataSect)
        invariant seen == if clust == lastUsed then 0 else Rank(g.clustCnt, lastUsed, clust)
        invariant NoStopBefore(t, lastUsed, seen + 1)
        decreases g.clustCnt + 1 - seen
      {
        if clust != lastUsed && clust + 1 >= g.clustCnt && !IsCluster(g, lastUsed) {   // no part of the source
          WentRound(t, lastUsed, clust);
          return Endless, 0;
        }
        ghost var was := clust;
        clust := After(g.clustCnt, clust);
        if clust == lastUsed {
          CameBack(t, lastUsed, was);
          return Full, 0;
        }
        ScanStep(t, lastUsed, was);
        next, kind := GetFat(clust);
        assert kind == Classify(t[clust], g.clustCnt);
        if kind.Broken? || kind.Free? {
          return if kind.Free? then Found else BadEntry, clust;
        }
        seen := Rank(g.clustCnt, lastUsed, clust);
      }
    }

    /**
     * Appends a free cluster to the chain that ends in prev, or starts a chain if prev is 0, on any table: a malformed
     * entry that the scan comes to makes the source return the flags of the entry it looked at before.
     */
    method StretchChain(prev: nat) returns (err: Err, clust: nat)
      requires Valid() && (prev == 0 || IsCluster(g, prev))
      modifies this, buf
      ensures Valid() && sect < g.dataSect
      ensures exists r :: Searched(old(Entries()), old(lastUsed), prev, r, clust) && err == ErrOf(r)
      ensures !err.Ok? ==> Logical() == old(Logical()) && lastUsed == old(lastUsed) && freeCnt == old(freeCnt)
      ensures err.Ok? ==>
        && clust < g.clustCnt && lastUsed == clust && freeCnt == Wrap(old(freeCnt) - 1)
        && Logical() == StretchedDisk(g, old(Logical()), prev, clust, freeCnt)
        && Synced()
      ensures EntriesOk(old(Entries())) && IsCluster(g, old(lastUsed)) ==>
        && err == (if Exhausted(old(Entries()), old(lastUsed), prev) then ErrFull else Ok)
        && (err.Ok? ==> NextFit(old(Entries()), old(lastUsed), prev, clust))
    {
      hide Layout, Table, Word, WithWord, PutEntry, WithInfo, Exhausted, EntriesOk, Wrap, Searched, NextFit;
      LayoutBounds(g, |disk.sectors|);
      ghost var t, last := Entries(), lastUsed;
      infoDirty := true;
      var r;
      r, clust := FindFree(prev);
      if EntriesOk(t) && IsCluster(g, lastUsed) {
        WellFormedSearch(t, lastUsed, prev, r, clust);
      }
      if r != Found {
        return ErrOf(r), clust;
      }
      ghost var L := Logical();
      PutFat(clust, EOC);
      if prev != 0 {
        PutFat(prev, clust);
      }
      lastUsed := clust;
      freeCnt := Wrap(freeCnt - 1);
      SyncFs();
      err := Ok;
      assert Searched(t, last, prev, r, clust) && err == ErrOf(r);
    }
  }
}
