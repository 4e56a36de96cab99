// The directory code on a mounted volume: a cursor that walks the records through the sector
// buffer, name lookup, insertion that may extend the chain, and removal. The methods are proved
// against the record sequences of FatDirectory.
module FatDir {
  import opened Machine
  import opened FatDisk
  import opened FatChains
  import opened FatVolume
  import opened FatFileView
  import opened FatDirView
  import D = FatDirectory

  type Slot = D.Slot

  class Dir {
    const fat: Fat
    const sclust: nat
    var clust: nat
    var sect: nat
    var idx: nat
    // The buffer that long names are put together in, g_buf, with g_len and g_crc.
    const nameBuf: array<byte>
    var nameLen: nat
    var nameCrc: byte
    ghost var chain: seq<nat>

    ghost predicate OnFat()
      reads this`chain, fat, fat.buf
    {
      && fat.Valid() && DirOk(fat.g, fat.Logical(), chain) && chain[0] == sclust && IsCluster(fat.g, fat.lastUsed)
      && nameBuf.Length == 512 && nameBuf != fat.buf
    }

    /** The records of the directory as every reader through the buffer sees them. */
    ghost function List(): (d: Listing)
      requires OnFat()
      reads this`chain, fat, fat.buf
    {
      Listing(Records(fat.g, fat.Logical(), chain))
    }

    /** The cursor stands on record k. */
    ghost predicate At(k: nat)
      reads this`chain, this`clust, this`sect, this`idx, fat, fat.buf
    {
      OnFat() && k < |List().of| && Stands(fat.g, chain, k, clust, sect, idx)
    }

    /** And the record is in the buffer. */
    ghost predicate Loaded(k: nat)
      reads this`chain, this`clust, this`sect, this`idx, fat, fat.buf
    {
      At(k) && fat.sect == sect && idx + 32 <= 512 && fat.buf[idx..idx + 32] == List().of[k]
    }

    constructor Enter(fat: Fat, sclust: nat, ghost chain: seq<nat>)
      requires fat.Valid() && DirOk(fat.g, fat.Logical(), chain) && chain[0] == sclust && IsCluster(fat.g, fat.lastUsed)
      ensures At(0) && this.fat == fat && this.sclust == sclust && this.chain == chain && fresh(nameBuf)
    {
      this.fat, this.sclust, this.chain := fat, sclust, chain;
      nameBuf := new byte[512](_ => 0);
      nameLen, nameCrc := 0, 0;
      clust, sect, idx := sclust, ClustToSect(fat.g, sclust), 0;
      new;
      StartStands(fat.g, |fat.disk.sectors|, chain);
      RecordCount(fat.g, fat.Logical(), chain, 0);
    }

    method DirAtClust(c: nat)
      requires 2 <= c
      modifies this`clust, this`sect, this`idx
      ensures clust == c && sect == ClustToSect(fat.g, c) && idx == 0
    {
      clust := c;
      sect := ClustToSect(fat.g, c);
      idx := 0;
    }

    /** Back to the first record. */
    method Rewind()
      requires OnFat()
      modifies this`clust, this`sect, this`idx
      ensures At(0) && List() == old(List())
    {
      StartStands(fat.g, |fat.disk.sectors|, chain);
      RecordCount(fat.g, fat.Logical(), chain, 0);
      DirAtClust(sclust);
    }

    /** Brings the sector of the cursor into the buffer. */
    method Load(ghost k: nat)
      requires At(k)
      modifies fat`disk, fat`bufDirty, fat`sect, fat.buf
      ensures Loaded(k) && At(k) && OnFat() && fat.Valid() && fat.Logical() == old(fat.Logical()) && List() == old(List())
      ensures k < |List().of| && Seen(List().of[k])
    {
      hide DirOk, Stands, Layout, Table;
      StandsHere(k);
      fat.UpdateBuf(sect);
      LoadedIsSeen(k);
    }

    /** The buffer shows record s at the cursor. */
    ghost predicate Seen(s: Slot)
      reads this`idx, fat, fat.buf
    {
      && idx + 32 <= fat.buf.Length && fat.buf[idx..idx + 32] == s && fat.buf[idx..idx + 11] == s[..11]
      && fat.buf[idx] == s[0] && fat.buf[idx + 11] == s[11] && fat.buf[idx + 13] == s[13]
    }

    lemma LoadedIsSeen(k: nat)
      requires Loaded(k)
      ensures OnFat() && At(k) && k < |List().of| && Seen(List().of[k])
    {
      hide DirOk, Stands, Records;
      var s := fat.buf[idx..idx + 32];
      assert s[0] == fat.buf[idx] && s[11] == fat.buf[idx + 11] && s[13] == fat.buf[idx + 13] && s[..11] == fat.buf[idx..idx + 11];
    }

    lemma Basics()
      requires OnFat()
      ensures fat.Valid() && fat.buf.Length == 512 && nameBuf.Length == 512 && nameBuf != fat.buf
    {
      hide DirOk;
    }

    lemma Grounded(k: nat)
      requires At(k)
      ensures OnFat() && fat.Valid() && fat.buf.Length == 512 && nameBuf.Length == 512 && nameBuf != fat.buf && k < |List().of|
    {
      hide DirOk, Stands, Records;
    }

    lemma IsListed(k: nat)
      requires Loaded(k)
      ensures At(k) && k < |List().of|
    {
      hide DirOk, Stands, Records;
    }

    lemma IsLocated(k: nat)
      requires At(k)
      ensures Located(fat.g, chain, k, sect, idx)
    {
    }

    lemma StandsHere(k: nat)
      requires At(k)
      ensures fat.g.dataSect <= sect < |fat.disk.sectors| && 0 < sect && idx + 32 <= 512 && k < |List().of|
      ensures fat.Logical().sectors[sect][idx..idx + 32] == List().of[k] && SectToClust(fat.g, sect) == clust && clust in chain
    {
      hide Stands, Table, Layout;
      StandsOn(fat.g, fat.Logical(), chain, k, clust, sect, idx);
    }

    /** dir_next: to the record behind, or to the end of the chain. */
    method DirNext(ghost k: nat) returns (err: Err)
      requires At(k)
      modifies this`clust, this`sect, this`idx, fat`disk, fat`bufDirty, fat`sect, fat.buf
      ensures OnFat() && fat.Valid() && fat.Logical() == old(fat.Logical()) && List() == old(List())
      ensures k + 1 < |List().of| ==> err.Ok? && At(k + 1)
      ensures k + 1 >= |List().of| ==> err.ErrEof? && k + 1 == |List().of| && 0 < |chain| && clust == chain[|chain| - 1]
    {
      hide Table, Layout, Covers, ClusterIndex, SectorFor, Records, IsChain, EntriesOk, Classify;
      ghost var j := ClusterIndex(fat.g, 32 * k);
      StandsHere(k);
      StandsNext(fat.g, |fat.disk.sectors|, chain, k, clust, sect, idx);
      RecordCount(fat.g, fat.Logical(), chain, k + 1);
      ChainStep(fat.Entries(), chain, j);
      idx := idx + 32;
      if idx < 512 {
        return Ok;
      }
      idx := 0;
      sect := sect + 1;
      if sect % fat.g.spc != 0 {
        return Ok;
      }
      var next, kind := fat.GetFat(clust);
      assert !kind.Broken? && !kind.Bad? && !kind.Free?;
      if kind.Last? {
        return ErrEof;
      }
      DirAtClust(next);
      return Ok;
    }

    // ---- Lookup

    /** The characters of one fragment go to position at of the name buffer. */
    method StoreFrag(at: nat)
      requires nameBuf != fat.buf && nameBuf.Length == 512 && fat.buf.Length == 512 && idx + 32 <= 512 && at + 13 <= 512
      modifies this`nameLen, nameBuf
      ensures var c := D.FragChars(fat.buf[idx..idx + 32], 0);
        nameBuf[..] == D.Store(old(nameBuf[..]), at, c) && nameLen == old(nameLen) + |c|
    {
      hide D.FragChars, D.Store, D.LfnIndex;
      ghost var s: Slot, was := fat.buf[idx..idx + 32], nameBuf[..];
      ghost var c := D.FragChars(s, 0);
      var i := 0;
      D.StoreNone(was, at);
      while i < 13
        invariant i <= 13 && i <= |c| && D.FragChars(s, i) == c[i..] && nameLen == old(nameLen) + i
        invariant nameBuf[..] == D.Store(was, at, c[..i])
      {
        var x := fat.buf[idx + D.LfnIndex(i)];
        assert x == s[D.LfnIndex(i)];
        D.StoreEnds(s, i, c);
        if x == 0 {
          break;
        }
        D.StoreMore(s, i, was, at, c);
        nameBuf[at + i] := x;
        nameLen := nameLen + 1;
        i := i + 1;
      }
      D.StoreEnds(s, i, c);
      assert c[..|c|] == c;
    }

    /** What parse_lfn_name leaves behind for each outcome. */
    ghost predicate ParsedAs(r: D.Parsed, crc: byte, err: Err)
      reads this, nameBuf, fat, fat.buf
    {
      match r
      case Parsed(b, n, next) => err.Ok? && Loaded(next) && nameBuf[..] == b && nameLen == n && nameCrc == crc
      case ParseEof => err.ErrEof?
      case ParseBroken => err.ErrBroken?
    }

    /** One turn of parse_lfn_name: checks the fragment at record k, stores it at position at, and loads the next record. */
    method ParseFrag(at: nat, ghost k: nat) returns (err: Err)
      requires Loaded(k) && at + 13 <= 512
      modifies this`clust, this`sect, this`idx, this`nameLen, nameBuf, fat`disk, fat`bufDirty, fat`sect, fat.buf
      ensures OnFat() && fat.Valid() && fat.Logical() == old(fat.Logical()) && List() == old(List())
      ensures var s: Slot := old(List()).of[k];
        if s[11] != D.ATTR_LFN || s[13] != nameCrc then err.ErrBroken?
        else
          && nameBuf[..] == D.Store(old(nameBuf[..]), at, D.FragChars(s, 0)) && nameLen == old(nameLen) + |D.FragChars(s, 0)|
          && if k + 1 == |List().of| then err.ErrEof? else err.Ok? && Loaded(k + 1)
    {
      hide Fat.Valid, Fat.Logical, OnFat, At, Loaded, List, D.FragChars, D.Store;
      LoadedIsSeen(k);
      Grounded(k);
      if fat.buf[idx + 11] != D.ATTR_LFN || fat.buf[idx + 13] != nameCrc {
        return ErrBroken;
      }
      StoreFrag(at);
      err := DirNext(k);
      if err == Ok {
        Load(k + 1);
      }
    }

    /** The loop of parse_lfn_name over cnt fragments from record k on. */
    method ParseFrags(count: nat, ghost k: nat) returns (err: Err)
      requires Loaded(k) && count <= 20
      modifies this`clust, this`sect, this`idx, this`nameLen, nameBuf, fat`disk, fat`bufDirty, fat`sect, fat.buf
      ensures OnFat() && fat.Valid() && fat.Logical() == old(fat.Logical()) && List() == old(List())
      ensures ParsedAs(D.ParseFrags(old(List()).of, k, count, nameCrc, old(nameBuf[..]), old(nameLen)), nameCrc, err)
    {
      hide Fat.Valid, Fat.Logical, OnFat, At, Loaded, List, D.FragChars, D.Store, D.ParseFrags;
      LoadedIsSeen(k);
      Grounded(k);
      var cnt := count;
      ghost var j: nat := k;
      while cnt > 0
        invariant cnt <= 20 && OnFat() && fat.Valid() && Loaded(j) && j < |List().of|
        invariant fat.Logical() == old(fat.Logical()) && List() == old(List())
        invariant D.ParseFrags(List().of, j, cnt, nameCrc, nameBuf[..], nameLen)
               == D.ParseFrags(old(List()).of, k, count, nameCrc, old(nameBuf[..]), old(nameLen))
      {
        D.ParseStep(List().of, j, cnt, nameCrc, nameBuf[..], nameLen);
        cnt := cnt - 1;
        err := ParseFrag(13 * cnt, j);
        if err != Ok {
          return;
        }
        j := j + 1;
        IsListed(j);
      }
      D.ParseDone(List().of, j, nameCrc, nameBuf[..], nameLen);
      err := Ok;
    }

    /** parse_lfn_name: reads the fragments from record k on, and moves to the record behind them. */
    method ParseLfnName(ghost k: nat) returns (err: Err)
      requires At(k)
      modifies this`clust, this`sect, this`idx, this`nameLen, this`nameCrc, nameBuf, fat`disk, fat`bufDirty, fat`sect, fat.buf
      ensures OnFat() && fat.Valid() && fat.Logical() == old(fat.Logical()) && List() == old(List())
      ensures ParsedAs(D.ParseName(old(List()).of, k, old(nameBuf[..])), D.LfnCrc(old(List()).of[k]), err)
    {
      hide Fat.Valid, Fat.Logical, OnFat, At, Loaded, List, D.ParseFrags;
      Grounded(k);
      Load(k);
      if fat.buf[idx] / 0x40 % 2 == 0 {
        return ErrBroken;
      }
      var cnt: nat := fat.buf[idx] as int % 0x20;
      if cnt > 20 {
        return ErrBroken;
      }
      nameCrc, nameLen := fat.buf[idx + 13], 0;
      err := ParseFrags(cnt, k);
      if err == Ok && nameLen > 255 {
        err := ErrBroken;
      }
    }

    /** What dir_search leaves behind for each outcome. */
    ghost predicate FoundAs(r: D.Outcome, err: Err, locSect: nat, locIdx: nat)
      reads this, fat, fat.buf
    {
      match r
      case At(first, pos) => err.Ok? && Loaded(pos) && first <= pos && Located(fat.g, chain, first, locSect, locIdx)
      case NotFound => err.ErrEof?
      case Malformed => err.ErrBroken?
    }

    /** What reading the entry at record k leaves behind, for each outcome of reading its name. */
    ghost predicate MatchedAs(r: D.Parsed, d: seq<Slot>, k: nat, name: D.Name, err: Err, matched: bool)
      requires k < |d|
      reads this, nameBuf, fat, fat.buf
    {
      match r
      case ParseEof => err.ErrEof?
      case ParseBroken => err.ErrBroken?
      case Parsed(b, n, j) =>
        j < |d| &&
        if D.IsFree(d[j]) || D.IsLfn(d[j]) || D.LfnCrc(d[k]) != D.Crc(D.SfnName(d[j])) then err.ErrBroken?
        else err.Ok? && Loaded(j) && nameBuf[..] == b && n <= |b| && (matched <==> b[..n] == name)
    }

    /** The case of dir_search for a long name: the name is read, its short entry checked, and the two names compared. */
    method MatchLong(name: D.Name, ghost k: nat) returns (err: Err, matched: bool)
      requires At(k)
      modifies this`clust, this`sect, this`idx, this`nameLen, this`nameCrc, nameBuf, fat`disk, fat`bufDirty, fat`sect, fat.buf
      ensures OnFat() && fat.Valid() && fat.Logical() == old(fat.Logical()) && List() == old(List())
      ensures k < |old(List()).of| && MatchedAs(D.ParseName(old(List()).of, k, old(nameBuf[..])), old(List()).of, k, name, err, matched)
    {
      hide Fat.Valid, Fat.Logical, OnFat, At, Loaded, List, D.ParseName, D.Crc;
      Grounded(k);
      ghost var r := D.ParseName(List().of, k, nameBuf[..]);
      matched := false;
      err := ParseLfnName(k);
      if err != Ok {
        return;
      }
      LoadedIsSeen(r.next);
      if fat.buf[idx] == D.SFN_LAST || fat.buf[idx] == D.SFN_FREE || fat.buf[idx + 11] == D.ATTR_LFN || nameCrc != D.Crc(fat.buf[idx..idx + 11]) {
        return ErrBroken, false;
      }
      matched := nameLen == |name| && nameBuf[..nameLen] == name;
    }

    /** dir_search: the cursor ends on the short entry; the location is that of its first record. */
    method DirSearch(name: D.Name) returns (err: Err, locSect: nat, locIdx: nat)
      requires OnFat()
      modifies this`clust, this`sect, this`idx, this`nameLen, this`nameCrc, nameBuf, fat`disk, fat`bufDirty, fat`sect, fat.buf
      ensures OnFat() && fat.Valid() && fat.Logical() == old(fat.Logical()) && List() == old(List())
      ensures FoundAs(D.Search(old(List()).of, 0, name, old(nameBuf[..])), err, locSect, locIdx)
    {
      hide Fat.Valid, Fat.Logical, OnFat, At, Loaded, List, Located, D.ParseName, D.Crc, D.ShortName;
      Basics();
      ghost var d := List();
      var sfnName := D.ShortName(name);
      Rewind();
      ghost var k: nat, outcome := 0, D.Search(d.of, 0, name, nameBuf[..]);
      locSect, locIdx := 0, 0;
      while true
        invariant OnFat() && fat.Valid() && At(k) && fat.Logical() == old(fat.Logical()) && List() == d
        invariant D.Search(d.of, k, name, nameBuf[..]) == outcome
        decreases |d.of| - k
      {
        Load(k);
        if fat.buf[idx] == D.SFN_LAST {
          return ErrEof, locSect, locIdx;
        }
        if fat.buf[idx] != D.SFN_FREE {
          locSect, locIdx := sect, idx;
          IsLocated(k);
          if fat.buf[idx + 11] == D.ATTR_LFN {
            ghost var r := D.ParseName(d.of, k, nameBuf[..]);
            var matched;
            err, matched := MatchLong(name, k);
            if err != Ok || matched {
              return;
            }
            k := r.next;
            IsListed(k);
          } else {
            if fat.buf[idx..idx + 11] == sfnName {
              return Ok, locSect, locIdx;
            }
          }
        }
        err := DirNext(k);
        if err != Ok {
          return;
        }
        k := k + 1;
      }
    }

    // ---- Changing records

    /** Overwrites bytes of the loaded record, through the buffer. */
    method Poke(at: nat, data: seq<byte>, ghost k: nat, ghost L0: Disk, ghost q0: seq<nat>)
      requires Loaded(k) && at + |data| <= 32 && Within(fat.g, L0, q0, fat.Logical(), chain)
      modifies fat`bufDirty, fat.buf
      ensures Loaded(k) && OnFat() && Within(fat.g, L0, q0, fat.Logical(), chain)
      ensures k < |old(List()).of| && List().of == old(List()).of[k := Overwrite(old(List()).of[k], at, data)]
    {
      hide DirOk, Stands, Layout, Table, Records, Within, Overwrite;
      ghost var L, s := fat.Logical(), List().of[k];
      StandsHere(k);
      fat.StoreBytes(idx + at, data);
      NestedStore(L.sectors[sect], idx, at, data);
      PutRecord(fat.g, L, chain, k, clust, sect, idx, Overwrite(s, at, data));
      PutStaysWithin(fat.g, L0, q0, L, chain, k, clust, sect, idx, fat.buf[..]);
      StandsHere(k);
    }

    // ---- Removal

    /** remove_entries: marks the records from the given place up to the cursor as unused. */
    method RemoveEntries(locSect: nat, locIdx: nat, ghost first: nat, ghost pos: nat)
      requires At(pos) && first <= pos && Located(fat.g, chain, first, locSect, locIdx)
      modifies this`clust, this`sect, this`idx, fat`disk, fat`bufDirty, fat`sect, fat.buf
      ensures OnFat() && At(pos) && D.Cleared(old(List()).of, List().of, first, pos)
      ensures Within(fat.g, old(fat.Logical()), chain, fat.Logical(), chain)
    {
      hide Fat.Valid, Fat.Logical, OnFat, At, Loaded, List, Located, Within, Overwrite, D.Freed, D.Cleared, D.ClearedSoFar;
      Grounded(pos);
      ghost var L0, d := fat.Logical(), List();
      IsLocated(pos);
      StartWithin();
      var s, i := sect, idx;
      LocatedAhead(first, locSect, locIdx, pos);
      clust := SectToClust(fat.g, locSect);
      sect := locSect;
      idx := locIdx;
      Standing(first);
      ghost var k: nat := first;
      D.ClearStarts(d.of, first);
      while true
        invariant OnFat() && fat.Valid() && At(k) && first <= k <= pos && Located(fat.g, chain, pos, s, i)
        invariant Within(fat.g, L0, chain, fat.Logical(), chain) && pos < |d.of| == |List().of|
        invariant D.ClearedSoFar(d.of, List().of, first, k)
        decreases pos - k
      {
        Load(k);
        FreedIs(List().of[k]);
        D.ClearStep(d.of, List().of, first, k);
        Poke(0, [D.SFN_FREE], k, L0, chain);
        IsListed(k);
        if sect == s && idx == i {
          OnePlace(k, pos);
          return;
        }
        IsLocated(k);
        if k == pos {
          PlaceIs(pos, s, i);
        }
        var err := DirNext(k);
        k := k + 1;
      }
    }

    lemma Standing(k: nat)
      requires OnFat() && k < |List().of| && 0 < fat.g.spc && OnVolume(fat.g, chain) && Stands(fat.g, chain, k, clust, sect, idx)
      ensures At(k)
    {
    }

    lemma StartWithin()
      requires OnFat()
      ensures Within(fat.g, fat.Logical(), chain, fat.Logical(), chain)
    {
      hide Table, Layout, Within;
      WithinAtFirst(fat.g, fat.Logical(), chain);
    }

    /** The cursor put back to a place in front of record pos. */
    lemma LocatedAhead(k: nat, s: nat, i: nat, pos: nat)
      requires OnFat() && Located(fat.g, chain, k, s, i) && k <= pos < |List().of|
      ensures fat.g.dataSect <= s && 0 < fat.g.spc && OnVolume(fat.g, chain) && Stands(fat.g, chain, k, SectToClust(fat.g, s), s, i)
    {
      hide Table, Located, Stands, Records;
      ReturnTo(fat.g, |fat.disk.sectors|, chain, k, s, i);
    }

    /** A record is in one place, and a place holds one record. */
    lemma OnePlace(k: nat, pos: nat)
      requires At(k) && Located(fat.g, chain, pos, sect, idx)
      ensures k == pos
    {
      hide Table, Located, Stands, Records, IsChain, EntriesOk;
      ChainHasNoDuplicates(fat.Entries(), chain);
      SamePlace(fat.g, |fat.disk.sectors|, chain, pos, k, clust, sect, idx);
    }

    lemma PlaceIs(k: nat, s: nat, i: nat)
      requires At(k) && Located(fat.g, chain, k, s, i)
      ensures sect == s && idx == i
    {
    }

    // ---- Growth

    /** The volume has no cluster that the chain could be extended by. */
    ghost predicate NoCluster()
      reads this`chain, fat, fat.buf
    {
      OnFat() && |chain| > 0 && Exhausted(fat.Entries(), fat.lastUsed, chain[|chain| - 1])
    }

    /** dir_next_stretch: at the end of the chain, a cleared cluster is appended. */
    method DirNextStretch(ghost k: nat, ghost L0: Disk, ghost q0: seq<nat>) returns (err: Err)
      requires At(k) && Within(fat.g, L0, q0, fat.Logical(), chain)
      modifies this`clust, this`sect, this`idx, this`chain, fat, fat.buf
      ensures OnFat() && fat.Valid() && Within(fat.g, L0, q0, fat.Logical(), chain)
      ensures old(chain) <= chain && GrownBy(old(List()).of, List().of)
      ensures if err.Ok? then At(k + 1) else err.ErrFull? && List() == old(List()) && chain == old(chain) && k + 1 == |List().of|
      ensures k + 1 < |old(List()).of| ==> err.Ok? && List() == old(List()) && chain == old(chain)
      ensures k + 1 == |old(List()).of| ==> (err.ErrFull? <==> old(NoCluster()))
      ensures err.ErrFull? ==> NoCluster()
    {
      hide Fat.Valid, Fat.Logical, OnFat, At, List, Within, GrownBy;
      Grounded(k);
      err := DirNext(k);
      SameIsGrown(List().of);
      if err != ErrEof {
        return;
      }
      err := Append(L0, q0);
    }

    method Append(ghost L0: Disk, ghost q0: seq<nat>) returns (err: Err)
      requires OnFat() && 0 < |chain| && clust == chain[|chain| - 1] && Within(fat.g, L0, q0, fat.Logical(), chain)
      modifies this`clust, this`sect, this`idx, this`chain, fat, fat.buf
      ensures OnFat() && fat.Valid() && Within(fat.g, L0, q0, fat.Logical(), chain)
      ensures old(chain) <= chain && GrownBy(old(List()).of, List().of)
      ensures if err.Ok? then At(|old(List()).of|) else err.ErrFull? && List() == old(List()) && chain == old(chain)
      ensures err.ErrFull? <==> old(NoCluster())
      ensures err.ErrFull? ==> NoCluster()
    {
      hide Fat.Logical, At, Table, Layout, Records, IsChain, EntriesOk, StretchedDisk, Exhausted, NextFit, Stretched, Within, GrownBy, Stands, ClearedUpTo;
      ghost var L, q, last := fat.Logical(), chain, fat.lastUsed;
      SameIsGrown(List().of);
      ChainEnd(fat.Entries(), chain);
      var next;
      err, next := fat.StretchChain(clust);
      if err != Ok {
        return;
      }
      NextFitIsFree(Table(fat.g, L), last, q[|q| - 1], next);
      DirAtClust(next);
      fat.ClustClear(next);
      StretchedDirectory(fat.g, L, q, last, next, fat.freeCnt, fat.Logical());
      StretchStaysWithin(fat.g, L0, q0, L, q, fat.Logical(), next);
      chain := chain + [next];
      Standing(|Records(fat.g, L, q)|);
    }

    // ---- Insertion

    /** The scan of dir_add: need usable records in a row, of which the first is at the place returned. */
    method FindRun(need: nat, ghost L0: Disk, ghost q0: seq<nat>) returns (err: Err, eod: bool, runSect: nat, runIdx: nat, ghost k: nat)
      requires OnFat() && 0 < need && Within(fat.g, L0, q0, fat.Logical(), chain)
      modifies this`clust, this`sect, this`idx, this`chain, fat, fat.buf
      ensures OnFat() && fat.Valid() && Within(fat.g, L0, q0, fat.Logical(), chain)
      ensures old(chain) <= chain && GrownBy(old(List()).of, List().of)
      ensures err.Ok? ==> At(k) && need <= k && D.Scanned(List().of, k, need, eod) && Located(fat.g, chain, k - need, runSect, runIdx)
      ensures err.Ok? ==> D.NoRunBefore(List().of, k - need, need)
      ensures err.Ok? && k < |old(List()).of| ==> List() == old(List()) && chain == old(chain)
      ensures err.Ok? || err.ErrFull?
      ensures err.ErrFull? ==> NoCluster() && D.NoRunBefore(List().of, |List().of| - need, need)
    {
      hide Fat.Valid, Fat.Logical, OnFat, At, Loaded, List, Located, Within, GrownBy, NoCluster, D.Scanned, D.NoRunBefore;
      Basics();
      ghost var d0 := List();
      Rewind();
      var cnt := 0;
      k, eod, runSect, runIdx := 0, false, 0, 0;
      D.ScanStarts(List().of);
      D.NoRunAtFirst(List().of, need);
      SameIsGrown(d0.of);
      while cnt < need
        invariant OnFat() && fat.Valid() && At(k) && 0 <= cnt <= need && cnt <= k
        invariant Within(fat.g, L0, q0, fat.Logical(), chain) && old(chain) <= chain && GrownBy(d0.of, List().of)
        invariant D.Scanned(List().of, k, cnt, eod)
        invariant 0 < cnt ==> Located(fat.g, chain, k - cnt, runSect, runIdx)
        invariant D.NoRunBefore(List().of, k - cnt, need)
        invariant k < |d0.of| ==> List() == d0 && chain == old(chain)
        decreases if k < |d0.of| then |d0.of| - k else 0, need - cnt
      {
        Grounded(k);
        ghost var was, d := chain, List();
        NewRecordsEnd(d0.of, d.of, k);
        D.ScanStep(d.of, k, cnt, eod);
        D.ScanIsTight(d.of, k, cnt, eod, need);
        var first := Load1(k);
        if eod || first == D.SFN_LAST || first == D.SFN_FREE {
          if cnt == 0 {
            runSect, runIdx := sect, idx;
            IsLocated(k);
          }
          cnt := cnt + 1;
        } else {
          cnt := 0;
        }
        if first == D.SFN_LAST {
          eod := true;
        }
        err := DirNextStretch(k, L0, q0);
        GrownTwice(d0.of, d.of, List().of);
        if err != Ok {
          D.FewerRuns(d.of, k + 1 - cnt, |d.of| - need, need);
          return;
        }
        GrownPrefix(d.of, List().of);
        D.ScanGrown(d.of, List().of, k + 1, cnt, eod);
        D.NoRunGrown(d.of, List().of, k + 1 - cnt, need);
        k := k + 1;
        if cnt > 0 {
          StillLocated(was, k - cnt, runSect, runIdx);
        }
      }
      err := Ok;
    }

    /** The first byte of record k, which tells whether it is in use. */
    method Load1(ghost k: nat) returns (b: byte)
      requires At(k)
      modifies fat`disk, fat`bufDirty, fat`sect, fat.buf
      ensures OnFat() && fat.Valid() && At(k) && fat.Logical() == old(fat.Logical()) && List() == old(List())
      ensures k < |List().of| && b == List().of[k][0]
    {
      hide Fat.Valid, Fat.Logical, OnFat, At, Loaded, List;
      Load(k);
      b := fat.buf[idx];
    }

    lemma StillLocated(was: seq<nat>, k: nat, s: nat, i: nat)
      requires OnFat() && was <= chain && Located(fat.g, was, k, s, i)
      ensures Located(fat.g, chain, k, s, i)
    {
      hide Located, Table;
      LocatedGrown(fat.g, was, chain, k, s, i);
    }

    /** put_lfn_name_frag and the other fields of a fragment's record. */
    method FillLfn(raw: array<byte>, frag: D.Name, seqByte: byte, crc: byte)
      requires raw.Length == 32 && |frag| <= 13
      modifies raw
      ensures raw[..] == D.LfnSlot(frag, seqByte, crc)
    {
      hide D.LfnIndex, D.CharOf;
      var i := 0;
      while i < |frag|
        invariant i <= |frag| && FilledTo(raw, frag, seqByte, crc, i)
      {
        D.CharOfIndex(i);
        raw[D.LfnIndex(i)] := frag[i];
        raw[D.LfnIndex(i) + 1] := 0;
        i := i + 1;
      }
      if i < 13 {
        D.CharOfIndex(i);
        raw[D.LfnIndex(i)] := 0;
        raw[D.LfnIndex(i) + 1] := 0;
        i := i + 1;
        while i < 13
          invariant |frag| < i <= 13 && FilledTo(raw, frag, seqByte, crc, i)
        {
          D.CharOfIndex(i);
          raw[D.LfnIndex(i)] := 0xff;
          raw[D.LfnIndex(i) + 1] := 0xff;
          i := i + 1;
        }
      }
      raw[11] := D.ATTR_LFN;
      raw[0] := seqByte;
      raw[13] := crc;
      raw[12] := 0;
      raw[26], raw[27] := 0, 0;
      assert raw[..] == D.LfnSlot(frag, seqByte, crc);
    }

    /** The bytes of the characters before the i-th are in place. */
    ghost predicate FilledTo(raw: array<byte>, frag: D.Name, seqByte: byte, crc: byte, i: nat)
      requires raw.Length == 32 && |frag| <= 13
      reads raw
    {
      forall k :: 1 <= k < 32 && k != 11 && k != 12 && k != 13 && k != 26 && k != 27 && D.CharOf(k) < i ==> raw[k] == D.LfnByte(frag, seqByte, crc, k)
    }

    /** The fields of the short entry. */
    method FillSfn(raw: array<byte>, name: seq<byte>, attr: byte, first: nat, time: nat, date: nat)
      requires raw.Length == 32 && |name| == 11
      modifies raw
      ensures raw[..] == D.SfnSlot(name, attr, first, time, date)
    {
      forall k | 0 <= k < 32 {
        raw[k] := D.SfnByte(name, attr, first, time, date, k);
      }
      assert raw[..] == D.SfnSlot(name, attr, first, time, date);
    }

    /** Replaces the loaded record as a whole. */
    method Replace(raw: array<byte>, ghost k: nat, ghost L0: Disk, ghost q0: seq<nat>)
      requires raw.Length == 32 && raw != fat.buf && Loaded(k) && Within(fat.g, L0, q0, fat.Logical(), chain)
      modifies fat`bufDirty, fat.buf
      ensures Loaded(k) && OnFat() && Within(fat.g, L0, q0, fat.Logical(), chain)
      ensures k < |old(List()).of| && List().of == old(List()).of[k := raw[..]]
    {
      hide Fat.Valid, Fat.Logical, OnFat, At, Loaded, List, Within;
      LoadedIsSeen(k);
      WholeOverwrite(List().of[k], raw[..]);
      Poke(0, raw[..], k, L0, q0);
    }

    /** Fragment i of a new name goes to record k. */
    method WriteFrag(name: D.Name, i: nat, crc: byte, mask: nat, ghost k: nat, ghost L0: Disk, ghost q0: seq<nat>)
      requires 1 <= |name| <= 255 && 1 <= i <= D.FragCount(name) && mask == (if i == D.FragCount(name) then 0x40 else 0)
      requires At(k) && k + 1 < |List().of| && Within(fat.g, L0, q0, fat.Logical(), chain)
      modifies this`clust, this`sect, this`idx, fat`disk, fat`bufDirty, fat`sect, fat.buf
      ensures At(k + 1) && OnFat() && fat.Valid() && Within(fat.g, L0, q0, fat.Logical(), chain)
      ensures k < |old(List()).of| && List().of == old(List()).of[k := D.NameSlot(name, i, crc)]
    {
      hide Fat.Valid, Fat.Logical, OnFat, At, Loaded, List, Within, D.NameSlot, D.Frag, D.FragCount, D.LfnSlot;
      Load(k);
      var raw := new byte[32];
      NameSlotIs(name, i, crc, mask);
      FillLfn(raw, D.Frag(name, i), mask + i, crc);
      Replace(raw, k, L0, q0);
      IsListed(k);
      var err := DirNext(k);
    }

    /** The fragments of a new name, highest number first, from record start on. */
    method WriteFrags(name: D.Name, crc: byte, ghost start: nat, ghost d: Listing, ghost L0: Disk, ghost q0: seq<nat>)
      requires 1 <= |name| <= 255 && At(start) && Within(fat.g, L0, q0, fat.Logical(), chain)
      requires List() == d && start + D.FragCount(name) < |d.of|
      modifies this`clust, this`sect, this`idx, fat`disk, fat`bufDirty, fat`sect, fat.buf
      ensures At(start + D.FragCount(name)) && OnFat() && Within(fat.g, L0, q0, fat.Logical(), chain)
      ensures D.Writing(d.of, List().of, start, name, crc, D.FragCount(name))
    {
      hide Fat.Valid, Fat.Logical, OnFat, At, Loaded, List, Within, D.Writing, D.NameSlot, D.FragCount;
      Grounded(start);
      var lfns := D.FragCount(name);
      var mask := 0x40;
      ghost var n := 0;
      D.WritingStarts(d.of, start, name, crc);
      for i := lfns downto 0
        invariant n == lfns - i && OnFat() && fat.Valid() && At(start + n) && Within(fat.g, L0, q0, fat.Logical(), chain)
        invariant |List().of| == |d.of| && D.Writing(d.of, List().of, start, name, crc, n)
        invariant mask == if i == lfns then 0x40 else 0
      {
        D.WritingGoesOn(d.of, List().of, start, name, crc, n);
        WriteFrag(name, i + 1, crc, mask, start + n, L0, q0);
        mask := 0;
        n := n + 1;
      }
    }

    /** dir_add: the entry goes to the first run of usable records, and the directory grows if there is none. */
    method DirAdd(name: D.Name, attr: byte, first: nat, time: nat, date: nat) returns (err: Err, ghost grown: Listing, ghost start: nat, ghost eod: bool)
      requires OnFat() && attr != D.ATTR_LFN && first < WORD_MOD
      modifies this`clust, this`sect, this`idx, this`chain, fat, fat.buf
      ensures OnFat() && old(chain) <= chain && Within(fat.g, old(fat.Logical()), old(chain), fat.Logical(), chain)
      ensures err.ErrParam? <==> |name| == 0 || |name| > 255
      ensures err.ErrParam? ==> List() == old(List())
      ensures err.Ok? || err.ErrParam? || (err.ErrFull? && GrownBy(old(List()).of, List().of))
      ensures err.ErrFull? ==> NoCluster() && D.NoRunBefore(List().of, |List().of| - (D.FragCount(name) + 1), D.FragCount(name) + 1)
      ensures err.Ok? ==> D.NoRunBefore(grown.of, start, D.FragCount(name) + 1)
      ensures err.Ok? && start + D.FragCount(name) + 1 < |old(List()).of| ==> grown == old(List()) && chain == old(chain)
      ensures err.Ok? ==>
        && GrownBy(old(List()).of, grown.of) && At(start + D.FragCount(name))
        && D.Added(grown.of, List().of, start, name, D.SfnSlot(D.ShortName(name), attr, first, time, date), eod)
    {
      hide Fat.Valid, Fat.Logical, OnFat, At, Loaded, List, Located, Within, GrownBy, NoCluster, D.Scanned, D.NoRunBefore, D.Run, D.Added, D.Writing, D.SfnSlot, D.ShortName, D.Crc, D.FragCount;
      StartWithin();
      Basics();
      grown, start, eod := List(), 0, false;
      SameIsGrown(grown.of);
      if |name| <= 0 || |name| > 255 {
        return ErrParam, grown, start, eod;
      }
      ghost var L0, q0 := fat.Logical(), chain;
      var lfns := D.FragCount(name);
      var runSect, runIdx, hitEnd;
      ghost var k;
      err, hitEnd, runSect, runIdx, k := FindRun(lfns + 1, L0, q0);
      eod, start, grown := hitEnd, if err.Ok? then k - (lfns + 1) else 0, List();
      if err != Ok {
        return;
      }
      D.ScanEnds(grown.of, start, lfns + 1, eod);
      PutEntry(name, attr, first, time, date, hitEnd, runSect, runIdx, start, k, L0, q0);
    }

    /** The second half of dir_add, with the cursor behind the run: a new end mark if need be, then the records of the entry. */
    method PutEntry(name: D.Name, attr: byte, first: nat, time: nat, date: nat, hitEnd: bool, runSect: nat, runIdx: nat,
                    ghost start: nat, ghost k: nat, ghost L0: Disk, ghost q0: seq<nat>)
      requires 1 <= |name| <= 255 && first < WORD_MOD && At(k) && k == start + D.FragCount(name) + 1
      requires Located(fat.g, chain, start, runSect, runIdx) && D.Run(List().of, start, D.FragCount(name) + 1, hitEnd)
      requires Within(fat.g, L0, q0, fat.Logical(), chain)
      modifies this`clust, this`sect, this`idx, fat`disk, fat`bufDirty, fat`sect, fat.buf
      ensures At(start + D.FragCount(name)) && OnFat() && Within(fat.g, L0, q0, fat.Logical(), chain)
      ensures D.Added(old(List()).of, List().of, start, name, D.SfnSlot(D.ShortName(name), attr, first, time, date), hitEnd)
    {
      hide Fat.Valid, Fat.Logical, OnFat, At, Loaded, List, Located, Within, D.Run, D.Added, D.Writing, D.SfnSlot, D.ShortName, D.Crc, D.FragCount;
      Grounded(k);
      ghost var d0 := List();
      var lfns := D.FragCount(name);
      if hitEnd {
        MarkEnd(k, L0, q0);
      }
      JumpTo(runSect, runIdx, start, k);
      ghost var d := List();
      var sfnName := D.ShortName(name);
      WriteFrags(name, D.Crc(sfnName), start, d, L0, q0);
      NameOfSfn(sfnName, attr, first, time, date);
      D.WritingEnds(d0.of, d.of, List().of, start, name, D.SfnSlot(sfnName, attr, first, time, date), hitEnd);
      WriteSfn(sfnName, attr, first, time, date, start + lfns, L0, q0);
    }

    method MarkEnd(ghost k: nat, ghost L0: Disk, ghost q0: seq<nat>)
      requires At(k) && Within(fat.g, L0, q0, fat.Logical(), chain)
      modifies fat`disk, fat`bufDirty, fat`sect, fat.buf
      ensures At(k) && OnFat() && fat.Valid() && Within(fat.g, L0, q0, fat.Logical(), chain)
      ensures k < |old(List()).of| && List().of == old(List()).of[k := old(List()).of[k][0 := D.SFN_LAST]]
    {
      hide Fat.Valid, Fat.Logical, OnFat, At, Loaded, List, Within;
      Load(k);
      EndMark(List().of[k]);
      Poke(0, [D.SFN_LAST], k, L0, q0);
      IsListed(k);
      Grounded(k);
    }

    /** Puts the cursor back on an earlier record. */
    method JumpTo(s: nat, i: nat, ghost k: nat, ghost from: nat)
      requires At(from) && k <= from && Located(fat.g, chain, k, s, i)
      modifies this`clust, this`sect, this`idx
      ensures At(k) && List() == old(List())
    {
      hide Fat.Valid, Fat.Logical, At, Located, Records, DirOk;
      Grounded(from);
      LocatedAhead(k, s, i, from);
      clust := SectToClust(fat.g, s);
      sect := s;
      idx := i;
      Standing(k);
    }

    method WriteSfn(name: seq<byte>, attr: byte, first: nat, time: nat, date: nat, ghost k: nat, ghost L0: Disk, ghost q0: seq<nat>)
      requires |name| == 11 && At(k) && Within(fat.g, L0, q0, fat.Logical(), chain)
      modifies fat`disk, fat`bufDirty, fat`sect, fat.buf
      ensures At(k) && OnFat() && fat.Valid() && Within(fat.g, L0, q0, fat.Logical(), chain)
      ensures k < |old(List()).of| && List().of == old(List()).of[k := D.SfnSlot(name, attr, first, time, date)]
    {
      hide Fat.Valid, Fat.Logical, OnFat, At, Loaded, List, Within, D.SfnSlot;
      Load(k);
      var raw := new byte[32];
      FillSfn(raw, name, attr, first, time, date);
      Replace(raw, k, L0, q0);
      IsListed(k);
      Grounded(k);
    }

    // ---- The three together

    /**
     * Adds a name that is not there, looks it up, removes it and looks it up again. If it could be added, the
     * first lookup lands on the new entry, which points to the given cluster; after the removal the name is
     * gone. In the end every lookup gives what it gave at the start.
     */
    method AddFindRemove(name: D.Name, attr: byte, first: nat, time: nat, date: nat) returns (added: bool, found: bool, target: nat, gone: bool)
      requires OnFat() && attr != D.ATTR_LFN && first < WORD_MOD && 1 <= |name| <= 255 && 0 !in name
      requires D.WellFormed(List().of, 0) && D.Lookup(List().of, 0, name).NotFound?
      modifies this, nameBuf, fat, fat.buf
      ensures OnFat() && old(chain) <= chain && D.WellFormed(List().of, 0)
      ensures forall other :: D.Lookup(List().of, 0, other) == D.Lookup(old(List()).of, 0, other)
      ensures added ==> found && target == first && gone
      ensures !added ==> NoCluster() && D.NoRunBefore(List().of, |List().of| - (D.FragCount(name) + 1), D.FragCount(name) + 1)
    {
      hide Fat.Valid, Fat.Logical, OnFat, At, Loaded, List, Located, Within, GrownBy, NoCluster, D.NoRunBefore, D.Added, D.SfnSlot, D.ShortName, D.Lookup, D.WellFormed, D.Cleared, D.FragCount, D.SfnCluster;
      Basics();
      ghost var d0 := List();
      ghost var d, start, eod;
      ghost var sfn := D.SfnSlot(D.ShortName(name), attr, first, time, date);
      D.SfnSlotFacts(name, attr, first, time, date);
      var err;
      err, d, start, eod := DirAdd(name, attr, first, time, date);
      added, found, gone, target := err == Ok, false, false, 0;
      if err != Ok {
        GrownMeansTheSame(d0.of, List().of);
        return;
      }
      ghost var e := List();
      GrownThenFound(d0.of, d.of, e.of, start, name, sfn, eod);
      Basics();
      D.SearchIsLookup(e.of, 0, name, nameBuf[..]);
      var locSect, locIdx;
      err, locSect, locIdx := DirSearch(name);
      found := err == Ok;
      EntryIs(d.of, e.of, start, name, sfn, eod);
      LoadedIsSeen(start + D.FragCount(name));
      target := ClusterInBuffer(start + D.FragCount(name));
      RemoveEntries(locSect, locIdx, start, start + D.FragCount(name));
      GrownThenCleared(d0.of, d.of, e.of, List().of, start, name, sfn, eod);
      Grounded(start + D.FragCount(name));
      D.SearchIsLookup(List().of, 0, name, nameBuf[..]);
      err, locSect, locIdx := DirSearch(name);
      gone := err == ErrEof;
    }

    /** sfn_cluster of the loaded record. */
    method ClusterInBuffer(ghost k: nat) returns (c: nat)
      requires Loaded(k)
      ensures k < |List().of| && c == D.SfnCluster(List().of[k])
    {
      LoadedIsSeen(k);
      ghost var s := fat.buf[idx..idx + 32];
      assert s[20] == fat.buf[idx + 20] && s[21] == fat.buf[idx + 21] && s[26] == fat.buf[idx + 26] && s[27] == fat.buf[idx + 27];
      c := (fat.buf[idx + 20] as int + 0x100 * fat.buf[idx + 21] as int) * 0x1_0000 + fat.buf[idx + 26] as int + 0x100 * fat.buf[idx + 27] as int;
    }
  }

  lemma EntryIs(d: seq<Slot>, e: seq<Slot>, start: nat, name: D.Name, sfn: Slot, eod: bool)
    requires 1 <= |name| <= 255 && D.Added(d, e, start, name, sfn, eod)
    ensures start + D.FragCount(name) < |e| && e[start + D.FragCount(name)] == sfn
  {
  }

  lemma GrownMeansTheSame(d: seq<Slot>, e: seq<Slot>)
    requires GrownBy(d, e) && D.WellFormed(d, 0)
    ensures D.WellFormed(e, 0) && forall other :: D.Lookup(e, 0, other) == D.Lookup(d, 0, other)
  {
    hide D.WellFormed, D.Lookup;
    D.LookupGrown(d, e, 0, []);
    forall other
      ensures D.Lookup(e, 0, other) == D.Lookup(d, 0, other)
    {
      D.LookupGrown(d, e, 0, other);
    }
  }

  lemma GrownThenFound(d0: seq<Slot>, d: seq<Slot>, e: seq<Slot>, start: nat, name: D.Name, sfn: Slot, eod: bool)
    requires 1 <= |name| <= 255 && 0 !in name && D.IsSfnOf(sfn, name) && D.Added(d, e, start, name, sfn, eod) && GrownBy(d0, d)
    requires D.WellFormed(d0, 0) && D.Lookup(d0, 0, name) == D.NotFound
    ensures D.WellFormed(e, 0) && D.Lookup(e, 0, name) == D.At(start, start + D.FragCount(name))
  {
    hide D.WellFormed, D.Lookup, D.Added, D.FragCount, D.IsSfnOf;
    D.GrownThenAdded(d0, d, e, start, name, sfn, eod);
  }

  lemma GrownThenCleared(d0: seq<Slot>, d: seq<Slot>, e: seq<Slot>, f: seq<Slot>, start: nat, name: D.Name, sfn: Slot, eod: bool)
    requires 1 <= |name| <= 255 && 0 !in name && D.IsSfnOf(sfn, name) && D.Added(d, e, start, name, sfn, eod) && GrownBy(d0, d)
    requires D.WellFormed(d0, 0) && D.Lookup(d0, 0, name) == D.NotFound && D.Cleared(e, f, start, start + D.FragCount(name))
    ensures D.WellFormed(f, 0) && forall other :: D.Lookup(f, 0, other) == D.Lookup(d0, 0, other)
  {
    hide D.WellFormed, D.Lookup, D.Added, D.FragCount, D.IsSfnOf, D.Cleared;
    D.LookupGrown(d0, d, 0, name);
    D.AddThenClear(d, e, f, start, name, sfn, eod, name);
    forall other
      ensures D.Lookup(f, 0, other) == D.Lookup(d0, 0, other)
    {
      D.LookupGrown(d0, d, 0, other);
      D.AddThenClear(d, e, f, start, name, sfn, eod, other);
    }
  }

  lemma WholeOverwrite(s: Slot, r: Slot)
    ensures Overwrite(s, 0, r) == r
  {
  }

  lemma EndMark(s: Slot)
    ensures Overwrite(s, 0, [D.SFN_LAST]) == s[0 := D.SFN_LAST]
  {
  }

  lemma NameOfSfn(name: seq<byte>, attr: byte, first: nat, time: nat, date: nat)
    requires |name| == 11
    ensures D.SfnName(D.SfnSlot(name, attr, first, time, date)) == name
  {
  }

  lemma NameSlotIs(name: D.Name, i: nat, crc: byte, mask: nat)
    requires 1 <= |name| <= 255 && 1 <= i <= D.FragCount(name) && mask == if i == D.FragCount(name) then 0x40 else 0
    ensures mask + i < 0x100 && D.NameSlot(name, i, crc) == D.LfnSlot(D.Frag(name, i), mask + i, crc)
  {
    hide D.LfnSlot, D.Frag, D.FragCount;
    D.PrefixOfAll(name);
    var seqByte: byte := mask + i;
    assert D.NameSlot(name, i, crc) == D.LfnSlot(D.Frag(name, i), seqByte, crc) by {
      assert seqByte == i + if i == D.FragCount(name) then 0x40 else 0;
    }
  }

  /** Records that growth has added mark the end. */
  lemma NewRecordsEnd(d: seq<Slot>, e: seq<Slot>, k: nat)
    requires GrownBy(d, e) && k < |e|
    ensures k >= |d| ==> D.IsLast(e[k])
  {
  }

  lemma GrownPrefix(d: seq<Slot>, e: seq<Slot>)
    requires GrownBy(d, e)
    ensures d <= e
  {
  }

  lemma SameIsGrown(d: seq<Slot>)
    ensures GrownBy(d, d)
  {
  }

  lemma ChainEnd(t: Entries, q: seq<nat>)
    requires IsChain(t, q)
    ensures 0 < |q| && InTable(t, q[|q| - 1])
  {
  }

  lemma FreedIs(s: Slot)
    ensures Overwrite(s, 0, [D.SFN_FREE]) == D.Freed(s)
  {
  }

  /** A store within a record is a store of the record. */
  lemma NestedStore(b: Sector, idx: nat, at: nat, data: seq<byte>)
    requires idx + 32 <= 512 && at + |data| <= 32
    ensures b[..idx + at] + data + b[idx + at + |data|..] == Overwrite(b, idx, Overwrite(b[idx..idx + 32], at, data))
    ensures Overwrite(b, idx, Overwrite(b[idx..idx + 32], at, data))[idx..idx + 32] == Overwrite(b[idx..idx + 32], at, data)
  {
    var r := Overwrite(b[idx..idx + 32], at, data);
    var x, y := b[..idx + at] + data + b[idx + at + |data|..], Overwrite(b, idx, r);
    assert |x| == |y| == 512;
    assert y[idx..idx + 32] == r;
    assert forall k :: 0 <= k < 512 ==> x[k] == y[k];
  }
}
