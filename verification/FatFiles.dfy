// Files and directories in a directory: the creating branch of fat_file_open, fat_dir_create and
// fat_unlink, and what any sequence of them leaves behind. Entries, first clusters and chains stay in
// step: every file and subdirectory has a chain of its own, and nothing that is in use is lost.
module FatFiles {
  import opened Machine
  import opened FatDisk
  import opened FatChains
  import opened FatVolume
  import opened FatFileView
  import opened FatDirView
  import opened FatDir
  import opened FatNames
  import D = FatDirectory

  const ATTR_DIR: byte := 0x10
  const ATTR_ARCHIVE: byte := 0x20

  // ---- Entries and their chains

  predicate IsLabel(s: D.Slot) { s[11] as int / 8 % 2 == 1 }

  /** RO, SYS or LABEL is set. */
  predicate Undeletable(s: D.Slot) {
    s[11] as int % 2 == 1 || s[11] as int / 4 % 2 == 1 || IsLabel(s)
  }

  predicate IsDirectory(s: D.Slot) { s[11] as int / 16 % 2 == 1 }

  /** A file or a subdirectory; a volume label and the records that stand for the directory and its parent own nothing. */
  predicate Owner(e: Entry) {
    !IsLabel(e.slot) && (e.Long? || e.slot[0] != D.DOT)
  }

  function Head(e: Entry): nat { D.SfnCluster(e.slot) }

  /** Every file and subdirectory has a chain of its own, none of them the chain home of the directory. */
  ghost predicate TreeOk(t: Entries, es: seq<Entry>, m: Chains, home: nat) {
    && Sound(t, m) && home in m
    && (forall i :: 0 <= i < |es| && Owner(es[i]) ==> HasChain(es[i], m, home))
    && (forall i, j :: 0 <= i < j < |es| && Owner(es[i]) && Owner(es[j]) ==> Head(es[i]) != Head(es[j]))
  }

  predicate HasChain(e: Entry, m: Chains, home: nat) {
    Head(e) in m && Head(e) != home
  }

  /** No file or subdirectory begins at cluster c. */
  ghost predicate Unowned(es: seq<Entry>, c: nat) {
    forall i :: 0 <= i < |es| && Owner(es[i]) ==> Head(es[i]) != c
  }

  /** One chain has grown: the other chains are as they were, and every cluster in use still belongs to one. */
  lemma SoundGrown(t0: Entries, m: Chains, h: nat, t: Entries, q: seq<nat>)
    requires Sound(t0, m) && h in m && Grown(t0, m[h], t, q)
    ensures Sound(t, m[h := q])
  {
    hide EntriesOk, IsChain;
    var n := m[h := q];
    ChainStart(t0, m[h]);
    assert m[h][0] == h;
    GrownFacts(t0, m[h], t, q);
    forall k | k in m && k != h
      ensures IsChain(t, m[k]) && Disjoint(m[k], q)
    {
      GrownSparesOthers(t0, m[h], t, q, m[k]);
    }
    forall c | InTable(t, c) && t[c] != 0 && t[c] != BAD
      ensures Owned(n, c)
    {
      if c in q {
        assert c in n[h];
      } else {
        assert c !in m[h] && Owned(m, c);
        var k :| k in m && c in m[k];
        assert c in n[k];
      }
    }
  }

  lemma ChainStart(t: Entries, q: seq<nat>)
    requires IsChain(t, q)
    ensures 0 < |q|
  {
  }

  /** A chain of one free cluster has been started; no entry leads to it yet. */
  lemma TreeStarted(t: Entries, es: seq<Entry>, m: Chains, home: nat, c: nat)
    requires TreeOk(t, es, m, home) && InTable(t, c) && t[c] == 0
    ensures c !in m && c != home && TreeOk(t[c := EOC], es, m[c := [c]], home) && Unowned(es, c)
  {
    hide Sound, D.SfnCluster, Owner;
    CreateKeepsSound(t, m, c);
  }

  /** The directory or another chain has grown. */
  lemma TreeGrown(t0: Entries, es: seq<Entry>, m: Chains, home: nat, h: nat, t: Entries, q: seq<nat>)
    requires TreeOk(t0, es, m, home) && h in m && Grown(t0, m[h], t, q)
    ensures TreeOk(t, es, m[h := q], home)
  {
    hide Sound, Grown, D.SfnCluster, Owner;
    SoundGrown(t0, m, h, t, q);
  }

  lemma HasHome(t: Entries, es: seq<Entry>, m: Chains, home: nat)
    requires TreeOk(t, es, m, home)
    ensures home in m
  {
  }

  /** An entry has been added that leads to a chain no other entry leads to. */
  lemma TreeAdded(t: Entries, es: seq<Entry>, m: Chains, home: nat, fs: seq<Entry>, x: Entry)
    requires TreeOk(t, es, m, home) && Inserted(es, fs, x) && HasChain(x, m, home) && Unowned(es, Head(x))
    ensures TreeOk(t, fs, m, home)
  {
    hide Sound, D.SfnCluster, Owner, InsertedAt;
    var i: nat :| InsertedAt(es, fs, x, i);
    InsertedBounds(es, fs, x, i);
    forall j | 0 <= j < |fs| && Owner(fs[j])
      ensures HasChain(fs[j], m, home)
    {
      InsertedIndex(es, fs, x, i, j);
    }
    forall j, k | 0 <= j < k < |fs| && Owner(fs[j]) && Owner(fs[k])
      ensures Head(fs[j]) != Head(fs[k])
    {
      InsertedIndex(es, fs, x, i, j);
      InsertedIndex(es, fs, x, i, k);
    }
  }

  /** A file or subdirectory has been deleted: its clusters freed, and then its records marked unused. */
  lemma TreeDeleted(t0: Entries, es: seq<Entry>, m: Chains, home: nat, i: nat, t: Entries)
    requires TreeOk(t0, es, m, home) && i < |es| && Owner(es[i]) && Head(es[i]) in m
    requires Grown(Zeroed(t0, m[Head(es[i])]), m[home], t, m[home])
    ensures home in m && home != Head(es[i]) && TreeOk(t, Without(es, i), m - {Head(es[i])}, home)
  {
    hide Sound, Grown, D.SfnCluster, Owner;
    var h, n, fs := Head(es[i]), m - {Head(es[i])}, Without(es, i);
    assert HasChain(es[i], m, home);
    RemoveKeepsSound(t0, m, h);
    SoundGrown(Zeroed(t0, m[h]), n, home, t, m[home]);
    assert n[home := m[home]] == n;
    forall j | 0 <= j < |fs| && Owner(fs[j])
      ensures HasChain(fs[j], n, home)
    {
      WithoutIndex(es, i, j);
    }
    forall j, k | 0 <= j < k < |fs| && Owner(fs[j]) && Owner(fs[k])
      ensures Head(fs[j]) != Head(fs[k])
    {
      WithoutIndex(es, i, j);
      WithoutIndex(es, i, k);
    }
  }

  lemma WithoutIndex(es: seq<Entry>, i: nat, j: nat)
    requires i < |es| && j < |Without(es, i)|
    ensures |Without(es, i)| == |es| - 1 && Without(es, i)[j] == es[if j < i then j else j + 1]
  {
  }

  /** A new chain of one cluster leaves the directory as it was. */
  lemma ChainStarted(g: Geometry, L: Disk, q: seq<nat>, lastUsed: nat, c: nat, freeCnt: nat)
    requires DirOk(g, L, q) && IsCluster(g, lastUsed) && freeCnt < WORD_MOD && NextFit(Table(g, L), lastUsed, 0, c)
    ensures c < g.clustCnt && IsCluster(g, c) && Table(g, L)[c] == 0
    ensures var R := StretchedDisk(g, L, 0, c, freeCnt);
      DirOk(g, R, q) && Records(g, R, q) == Records(g, L, q) && Table(g, R) == Table(g, L)[c := EOC]
  {
    hide Table, Layout, StretchedDisk, Records, Kept;
    var t := Table(g, L);
    NextFitIsFree(t, lastUsed, 0, c);
    StretchedDiskEffect(g, L, 0, c, freeCnt);
    var R := StretchedDisk(g, L, 0, c, freeCnt);
    KeptData(g, L, R);
    FreeNotIn(t, q, c);
    ChainFrame(t, Table(g, R), q);
    SameRecords(g, L, R, q);
  }

  lemma KeptData(g: Geometry, L: Disk, r: Disk)
    requires TableFits(g, L) && Kept(g, L, r)
    ensures SameData(g, L, r) && TableFits(g, r)
  {
  }

  /** Removing a chain that is not the directory's leaves the directory as it was. */
  lemma ChainRemoved(g: Geometry, L: Disk, q: seq<nat>, r: seq<nat>, lastUsed: nat, freeCnt: nat)
    requires DirOk(g, L, q) && IsChain(Table(g, L), r) && Disjoint(q, r) && lastUsed < WORD_MOD && freeCnt < WORD_MOD
    ensures r[0] < g.clustCnt
    ensures var f := FreeOnDisk(g, L, r[0]);
      && f.ok && f.count == |r|
      && var R := WithInfo(g, f.L, lastUsed, freeCnt);
      DirOk(g, R, q) && Records(g, R, q) == Records(g, L, q) && Table(g, R) == Zeroed(Table(g, L), r)
  {
    hide Table, Layout, Records, FreeWalk, FreeOnDisk, WithInfo;
    var t := Table(g, L);
    ChainEntriesUsed(t, r, r[0]);
    FreeOnDiskEffect(g, L, r[0]);
    FreeWalkOfChain(t, r);
    var f := FreeOnDisk(g, L, r[0]);
    KeptData(g, L, f.L);
    WithInfoKeeps(g, f.L, lastUsed, freeCnt);
    var R := WithInfo(g, f.L, lastUsed, freeCnt);
    KeptData(g, f.L, R);
    ChainFrame(t, Table(g, R), q);
    SameRecords(g, L, R, q);
  }

  // ---- The directory and its entries

  /** The directory and what is in it are in order; m holds the chains of the volume. */
  ghost predicate TreeIn(d: Dir, m: Chains)
    reads d, d.fat, d.fat.buf
  {
    && d.OnFat() && D.WellFormed(d.List().of, 0)
    && d.sclust in m && m[d.sclust] == d.chain
    && TreeOk(d.fat.Entries(), EntriesOf(d.List().of, 0), m, d.sclust)
  }

  /** The entries of the directory. */
  ghost function EntriesIn(d: Dir): seq<Entry>
    requires d.OnFat() && D.WellFormed(d.List().of, 0)
    reads d, d.fat, d.fat.buf
  {
    EntriesOf(d.List().of, 0)
  }

  /** dir_search in a directory in order: finds the first entry with the name, and brings its short record to the cursor. */
  method Find(d: Dir, name: D.Name) returns (err: Err, locSect: nat, locIdx: nat, ghost first: nat, ghost pos: nat)
    requires d.OnFat() && D.WellFormed(d.List().of, 0)
    modifies d`clust, d`sect, d`idx, d`nameLen, d`nameCrc, d.nameBuf, d.fat`disk, d.fat`bufDirty, d.fat`sect, d.fat.buf
    ensures d.OnFat() && d.fat.Valid() && d.fat.Logical() == old(d.fat.Logical()) && d.List() == old(d.List())
    ensures err == if Has(EntriesIn(d), name) then Ok else ErrEof
    ensures err.Ok? ==>
      && d.Loaded(pos) && first <= pos < |d.List().of| && D.Lookup(d.List().of, 0, name) == D.At(first, pos)
      && Located(d.fat.g, d.chain, first, locSect, locIdx) && d.List().of[pos] == EntriesIn(d)[First(EntriesIn(d), name)].slot
  {
    hide Fat.Valid, Fat.Logical, Dir.OnFat, Dir.Loaded, Dir.List, Located, D.WellFormed, EntriesOf, D.Lookup, D.Search, First;
    d.Basics();
    ghost var l := d.List();
    D.SearchIsLookup(l.of, 0, name, d.nameBuf[..]);
    LookupIsFirst(l.of, 0, name);
    HasFirst(EntriesOf(l.of, 0), name);
    err, locSect, locIdx := d.DirSearch(name);
    ghost var r := D.Lookup(l.of, 0, name);
    first, pos := if r.At? then r.first else 0, if r.At? then r.pos else 0;
  }

  /** create_chain, next to an open directory: one free cluster becomes a chain, and the directory does not change. */
  method CreateChain(d: Dir) returns (err: Err, clust: nat)
    requires d.OnFat()
    modifies d.fat, d.fat.buf
    ensures d.OnFat() && d.List() == old(d.List())
    ensures err == if old(Exhausted(d.fat.Entries(), d.fat.lastUsed, 0)) then ErrFull else Ok
    ensures err.ErrFull? ==> d.fat.Logical() == old(d.fat.Logical())
    ensures err.Ok? ==>
      && IsCluster(d.fat.g, clust) && old(d.fat.Entries())[clust] == 0 && clust < WORD_MOD
      && d.fat.Entries() == old(d.fat.Entries())[clust := EOC]
  {
    hide Fat.Logical, Table, Layout, Records, IsChain, EntriesOk, StretchedDisk, Exhausted, NextFit, Stretched;
    ghost var L, q, last := d.fat.Logical(), d.chain, d.fat.lastUsed;
    LayoutBounds(d.fat.g, |L.sectors|);
    err, clust := d.fat.StretchChain(0);
    if err == Ok {
      ChainStarted(d.fat.g, L, q, last, clust, d.fat.freeCnt);
    }
  }

  // ---- Adding an entry

  lemma WithinGrown(g: Geometry, L0: Disk, q0: seq<nat>, L: Disk, q: seq<nat>)
    requires Within(g, L0, q0, L, q)
    ensures TableFits(g, L0) && TableFits(g, L) && Grown(Table(g, L0), q0, Table(g, L), q)
  {
  }

  /** A file or a subdirectory, and not a volume label. */
  predicate PlainAttr(attr: byte) { attr == ATTR_ARCHIVE || attr == ATTR_DIR }

  lemma NewEntry(name: D.Name, attr: byte, first: nat, time: nat, date: nat)
    requires first < WORD_MOD && PlainAttr(attr)
    ensures var x := Long(name, D.SfnSlot(D.ShortName(name), attr, first, time, date));
      D.IsSfnOf(x.slot, name) && Owner(x) && Head(x) == first && (IsDirectory(x.slot) <==> attr == ATTR_DIR)
  {
    hide D.SfnSlot, D.ShortName;
    D.SfnSlotFacts(name, attr, first, time, date);
  }

  /** The entries after dir_add on a directory l, whether it could add the entry or only grow the directory. */
  lemma EntriesAfterAdd(l: seq<D.Slot>, grown: seq<D.Slot>, e: seq<D.Slot>, start: nat, name: D.Name, sfn: D.Slot, eod: bool, ok: bool)
    requires Nameable(name) && D.WellFormed(l, 0) && D.IsSfnOf(sfn, name)
    requires ok ==> |name| <= 255
    requires if ok then GrownBy(l, grown) && D.Added(grown, e, start, name, sfn, eod) else GrownBy(l, e)
    ensures D.WellFormed(e, 0)
    ensures if ok then Inserted(EntriesOf(l, 0), EntriesOf(e, 0), Long(name, sfn)) else EntriesOf(e, 0) == EntriesOf(l, 0)
  {
    hide D.WellFormed, EntriesOf, D.Added, D.IsSfnOf, Inserted;
    if ok {
      EntriesGrown(l, grown, 0);
      EntriesAdded(grown, e, 0, start, name, sfn, eod);
    } else {
      EntriesGrown(l, e, 0);
    }
  }

  /** dir_add of an entry that leads to the chain at first; other files and directories keep their bytes. */
  method AddEntry(d: Dir, name: D.Name, attr: byte, first: nat, time: nat, date: nat, ghost m: Chains) returns (err: Err, ghost m': Chains, ghost slot: D.Slot)
    requires TreeIn(d, m) && Nameable(name) && !Has(EntriesIn(d), name) && PlainAttr(attr)
    requires first < WORD_MOD && first in m && first != d.sclust && Unowned(EntriesIn(d), first)
    modifies d`clust, d`sect, d`idx, d`chain, d.fat, d.fat.buf
    ensures TreeIn(d, m') && m' == m[d.sclust := d.chain]
    ensures Within(d.fat.g, old(d.fat.Logical()), old(d.chain), d.fat.Logical(), d.chain)
    ensures if err.Ok? then Inserted(old(EntriesIn(d)), EntriesIn(d), Long(name, slot)) else EntriesIn(d) == old(EntriesIn(d))
    ensures D.SfnCluster(slot) == first && (IsDirectory(slot) <==> attr == ATTR_DIR)
    ensures err.ErrParam? <==> |name| > 255
    ensures err.Ok? || err.ErrParam? || (err.ErrFull? && d.NoCluster())
  {
    hide Fat.Valid, Fat.Logical, Dir.OnFat, Dir.Loaded, Dir.List, Dir.At, Dir.NoCluster, Located, D.WellFormed, EntriesOf, D.Lookup, D.Added, D.SfnSlot, D.ShortName, D.SfnCluster, D.NoRunBefore, D.FragCount, D.IsSfnOf;
    hide TreeOk, Within, GrownBy, IsDirectory, Grown, Owner, Unowned, Inserted, Has;
    d.Basics();
    ghost var es, t, l, L0, q := EntriesIn(d), d.fat.Entries(), d.List(), d.fat.Logical(), d.chain;
    ghost var grown, start, eod;
    err, grown, start, eod := d.DirAdd(name, attr, first, time, date);
    d.Basics();
    slot := D.SfnSlot(D.ShortName(name), attr, first, time, date);
    NewEntry(name, attr, first, time, date);
    WithinGrown(d.fat.g, L0, q, d.fat.Logical(), d.chain);
    m' := m[d.sclust := d.chain];
    HasHome(t, es, m, d.sclust);
    TreeGrown(t, es, m, d.sclust, d.sclust, d.fat.Entries(), d.chain);
    if err.ErrParam? {
      SameIsGrown(l.of);
    }
    EntriesAfterAdd(l.of, grown.of, d.List().of, start, name, slot, eod, err.Ok?);
    if err.Ok? {
      TreeAdded(d.fat.Entries(), es, m', d.sclust, EntriesIn(d), Long(name, slot));
    }
  }

  // ---- Creating

  /** The creating branch of fat_file_open: a cluster first, and then the entry that leads to it. */
  method Create(d: Dir, name: D.Name, time: nat, date: nat, ghost m: Chains) returns (err: Err, first: nat, ghost m': Chains, ghost slot: D.Slot)
    requires TreeIn(d, m) && Nameable(name) && !Has(EntriesIn(d), name)
    modifies d, d.nameBuf, d.fat, d.fat.buf
    ensures TreeIn(d, m')
    ensures if err.Ok? then Inserted(old(EntriesIn(d)), EntriesIn(d), Long(name, slot)) else EntriesIn(d) == old(EntriesIn(d))
    ensures err.Ok? ==> D.SfnCluster(slot) == first && !IsDirectory(slot) && first !in m && m' == m[first := [first]][d.sclust := d.chain] && |name| <= 255
    ensures err.ErrParam? ==> |name| > 255
    ensures err.Ok? || err.ErrParam? || (err.ErrFull? && (old(Exhausted(d.fat.Entries(), d.fat.lastUsed, 0)) || d.NoCluster()))
  {
    hide Fat.Valid, Fat.Logical, Dir.OnFat, Dir.List, Dir.NoCluster, Exhausted, D.WellFormed, EntriesOf, D.SfnCluster, IsDirectory, TreeOk, Unowned, Inserted, Has, Within;
    d.Basics();
    ghost var es, t := EntriesIn(d), d.fat.Entries();
    m', slot := m, Zeros()[..32];
    err, first := CreateChain(d);
    if err != Ok {
      return;
    }
    TreeStarted(t, es, m, d.sclust, first);
    err, m', slot := AddEntry(d, name, ATTR_ARCHIVE, first, time, date, m[first := [first]]);
  }

  /**
   * Opening by name, up to the first cluster: finds the entry, or creates a file if asked to. A creation that
   * fails leaves no name behind, though it may leave a cluster that belongs to no name.
   */
  method FindOrCreate(d: Dir, name: D.Name, create: bool, time: nat, date: nat, ghost m: Chains)
      returns (err: Err, first: nat, ghost m': Chains, ghost slot: D.Slot)
    requires TreeIn(d, m) && Nameable(name)
    modifies d, d.nameBuf, d.fat, d.fat.buf
    ensures TreeIn(d, m')
    ensures Has(old(EntriesIn(d)), name) ==>
      err.Ok? && first == Head(old(EntriesIn(d))[First(old(EntriesIn(d)), name)])
      && EntriesIn(d) == old(EntriesIn(d)) && m' == m && d.fat.Entries() == old(d.fat.Entries())
    ensures !Has(old(EntriesIn(d)), name) && !create ==>
      err.ErrDenied? && EntriesIn(d) == old(EntriesIn(d)) && m' == m && d.fat.Entries() == old(d.fat.Entries())
    ensures !Has(old(EntriesIn(d)), name) && create ==>
      && (if err.Ok? then Inserted(old(EntriesIn(d)), EntriesIn(d), Long(name, slot)) else EntriesIn(d) == old(EntriesIn(d)))
      && (err.Ok? ==> D.SfnCluster(slot) == first && !IsDirectory(slot) && m' == m[first := [first]][d.sclust := d.chain] && first !in m)
      && (err.Ok? ==> |name| <= 255) && (err.ErrParam? ==> |name| > 255)
      && (err.Ok? || err.ErrParam? || (err.ErrFull? && (old(Exhausted(d.fat.Entries(), d.fat.lastUsed, 0)) || d.NoCluster())))
  {
    hide Fat.Valid, Fat.Logical, Dir.OnFat, Dir.Loaded, Dir.List, Dir.At, Dir.NoCluster, Exhausted, Located, D.WellFormed, EntriesOf, D.Lookup, D.SfnCluster, IsDirectory, TreeOk, Inserted, First, Has;
    d.Basics();
    m', first, slot := m, 0, Zeros()[..32];
    var locSect, locIdx;
    ghost var found, pos;
    err, locSect, locIdx, found, pos := Find(d, name);
    if err == Ok {
      HasFirst(EntriesIn(d), name);
      first := d.ClusterInBuffer(pos);
      return;
    }
    if !create {
      return ErrDenied, first, m', slot;
    }
    err, first, m', slot := Create(d, name, time, date, m);
  }

  // ---- Deleting

  /** The walk of fat_unlink over a subdirectory from record k on: it may hold unused records, and must have an end mark. */
  function CheckFrom(d: seq<D.Slot>, k: nat): Err
    decreases |d| - k
  {
    if k >= |d| then ErrEof
    else if D.IsLast(d[k]) then Ok
    else if !D.IsFree(d[k]) then ErrDenied
    else CheckFrom(d, k + 1)
  }

  /** Behind the records for the directory itself and its parent. */
  function Emptiness(d: seq<D.Slot>): Err { if |d| <= 2 then ErrEof else CheckFrom(d, 2) }

  /** From record k on there are only unused records up to the end mark l. */
  ghost predicate EndsAt(d: seq<D.Slot>, k: nat, l: nat) {
    k <= l < |d| && D.IsLast(d[l]) && forall i :: k <= i < l ==> D.IsFree(d[i]) && !D.IsLast(d[i])
  }

  /** A directory is taken for empty exactly if only unused records lie between the first two and an end mark. */
  lemma {:induction false} EmptyIff(d: seq<D.Slot>, k: nat)
    requires k <= |d|
    ensures CheckFrom(d, k).Ok? <==> exists l :: EndsAt(d, k, l)
    decreases |d| - k
  {
    if k < |d| && D.IsLast(d[k]) {
      assert EndsAt(d, k, k);
    } else if k < |d| && D.IsFree(d[k]) {
      EmptyIff(d, k + 1);
      if CheckFrom(d, k + 1).Ok? {
        var l :| EndsAt(d, k + 1, l);
        assert EndsAt(d, k, l);
      }
      if exists l :: EndsAt(d, k, l) {
        var l :| EndsAt(d, k, l);
        assert EndsAt(d, k + 1, l);
      }
    }
  }

  /** A new directory can be deleted again. */
  lemma NewIsDeletable(d: seq<D.Slot>, clust: nat, parent: nat, time: nat, date: nat)
    requires IsNew(d, clust, parent, time, date)
    ensures Emptiness(d) == Ok
  {
  }

  lemma SubdirectoryOk(g: Geometry, L: Disk, q: seq<nat>, r: seq<nat>)
    requires DirOk(g, L, q) && IsChain(Table(g, L), r)
    ensures DirOk(g, L, r)
  {
    hide Table, Layout, EntriesOk;
    assert forall i :: 0 <= i < |r| ==> InTable(Table(g, L), r[i]);
  }

  /** The check that a subdirectory is empty, with a cursor of its own. */
  method CheckEmpty(d: Dir, clust: nat, ghost r: seq<nat>, ghost pos: nat) returns (err: Err)
    requires d.At(pos) && d.OnFat() && IsChain(d.fat.Entries(), r) && r[0] == clust
    modifies d.fat`disk, d.fat`bufDirty, d.fat`sect, d.fat.buf
    ensures d.At(pos) && d.OnFat() && d.fat.Valid() && d.fat.Logical() == old(d.fat.Logical()) && d.List() == old(d.List())
    ensures DirOk(d.fat.g, d.fat.Logical(), r) && err == Emptiness(Records(d.fat.g, d.fat.Logical(), r))
  {
    hide Fat.Logical, Table, Layout, Records, IsChain, EntriesOk, Stands;
    SubdirectoryOk(d.fat.g, d.fat.Logical(), d.chain, r);
    var tmp := new Dir.Enter(d.fat, clust, r);
    ghost var l, L := tmp.List(), d.fat.Logical();
    err := tmp.DirNext(0);
    if err != Ok {
      return;
    }
    err := tmp.DirNext(1);
    if err != Ok {
      return;
    }
    ghost var k: nat := 2;
    while true
      invariant tmp.At(k) && tmp.OnFat() && tmp.List() == l && d.fat.Valid() && d.fat.Logical() == L && k < |l.of|
      invariant Emptiness(l.of) == CheckFrom(l.of, k)
      decreases |l.of| - k
    {
      var first := tmp.Load1(k);
      if first == D.SFN_LAST {
        return Ok;
      }
      if first != D.SFN_FREE {
        return ErrDenied;
      }
      err := tmp.DirNext(k);
      if err != Ok {
        return;
      }
      k := k + 1;
    }
  }

  /** remove_chain on the chain r of a file or subdirectory, next to an open directory. */
  method RemoveOtherChain(d: Dir, clust: nat, ghost r: seq<nat>, ghost pos: nat)
    requires d.At(pos) && IsChain(d.fat.Entries(), r) && r[0] == clust && Disjoint(d.chain, r)
    modifies d.fat, d.fat.buf
    ensures d.At(pos) && d.List() == old(d.List())
    ensures d.fat.Entries() == Zeroed(old(d.fat.Entries()), r) && d.fat.freeCnt == Wrap(old(d.fat.freeCnt) + |r|)
  {
    hide Fat.Logical, Table, Layout, Records, IsChain, EntriesOk, FreeOnDisk, WithInfo, Zeroed;
    ghost var L, q, k := d.fat.Logical(), d.chain, Wrap(d.fat.freeCnt + |r|);
    LastUsedBound(d.fat.g, |L.sectors|, d.fat.lastUsed);
    ChainRemoved(d.fat.g, L, q, r, d.fat.lastUsed, k);
    var err := d.fat.RemoveChain(clust);
  }

  lemma LastUsedBound(g: Geometry, n: nat, c: nat)
    requires Layout(g, n) && IsCluster(g, c)
    ensures c < WORD_MOD
  {
  }

  /** The records of the directory that begins at cluster h. */
  ghost function Inside(d: Dir, m: Chains, h: nat): seq<D.Slot>
    reads d, d.fat, d.fat.buf
  {
    if d.OnFat() && h in m && DirOk(d.fat.g, d.fat.Logical(), m[h]) then Records(d.fat.g, d.fat.Logical(), m[h]) else []
  }

  /** dir_at_root with the cursor on record pos: it is the first record of the cluster root. */
  ghost predicate AtRoot(d: Dir, root: nat, pos: nat)
    requires 2 <= root
    reads d, d.fat, d.fat.buf
  {
    d.OnFat() && Located(d.fat.g, d.chain, pos, ClustToSect(d.fat.g, root), 0)
  }

  /** The short record that a lookup finds is taken for the root directory itself. */
  ghost predicate FoundAtRoot(d: Dir, root: nat, name: D.Name)
    requires 2 <= root && d.OnFat() && D.WellFormed(d.List().of, 0)
    reads d, d.fat, d.fat.buf
  {
    var r := D.Lookup(d.List().of, 0, name);
    r.At? && AtRoot(d, root, r.pos)
  }

  lemma ClusterOfFirstSector(g: Geometry, c: nat)
    requires 0 < g.spc && 2 <= c
    ensures SectToClust(g, ClustToSect(g, c)) == c
  {
    DivModUnique(c - 2, 0, g.spc);
  }

  /** What the comparison of the cursor with the root tells. */
  lemma AtRootHere(d: Dir, root: nat, pos: nat)
    requires d.At(pos) && 2 <= root && 0 < d.fat.g.spc
    ensures AtRoot(d, root, pos) <==> d.clust == root && d.sect == ClustToSect(d.fat.g, root) && d.idx == 0
  {
    hide Fat.Valid, Fat.Logical, Dir.OnFat, Dir.At, Dir.List, Located, ClustToSect, SectToClust;
    d.Grounded(pos);
    d.IsLocated(pos);
    if AtRoot(d, root, pos) {
      d.PlaceIs(pos, ClustToSect(d.fat.g, root), 0);
      d.StandsHere(pos);
      ClusterOfFirstSector(d.fat.g, root);
    }
  }

  /** The root's first cluster is in no other directory, so it is the first record of the root that is meant. */
  lemma AtRootIff(d: Dir, root: nat, pos: nat)
    requires d.OnFat() && pos < |d.List().of| && 2 <= root && (root == d.sclust || root !in d.chain)
    ensures AtRoot(d, root, pos) <==> root == d.sclust && pos == 0
  {
    hide Fat.Valid, Fat.Logical, Dir.OnFat, Dir.List, Located, ClustToSect, SectToClust, Records, Stands, IsChain, Table, EntriesOk;
    DirectoryFacts(d);
    var g, L, q := d.fat.g, d.fat.Logical(), d.chain;
    var s := ClustToSect(g, root);
    ClusterOfFirstSector(g, root);
    StartStands(g, |L.sectors|, q);
    LocatedIs(g, q, 0, q[0], ClustToSect(g, q[0]), 0);
    if AtRoot(d, root, pos) {
      ReturnTo(g, |L.sectors|, q, pos, s, 0);
      StandsOn(g, L, q, pos, root, s, 0);
      ChainHasNoDuplicates(Table(g, L), q);
      SamePlace(g, |L.sectors|, q, pos, 0, root, s, 0);
    }
  }

  lemma LocatedIs(g: Geometry, q: seq<nat>, k: nat, c: nat, sect: nat, idx: nat)
    requires 0 < g.spc && OnVolume(g, q) && Stands(g, q, k, c, sect, idx)
    ensures Located(g, q, k, sect, idx)
  {
  }

  /** The first record is in use and has only a short name, that of the given name. */
  predicate ShortInFront(l: seq<D.Slot>, name: D.Name) {
    |l| > 0 && !D.IsFree(l[0]) && !D.IsLfn(l[0]) && D.SfnName(l[0]) == D.ShortName(name)
  }

  /** A lookup ends on the first record exactly if that is a short record with the short name. */
  lemma FoundInFrontIff(l: seq<D.Slot>, name: D.Name)
    requires D.WellFormed(l, 0)
    ensures D.Lookup(l, 0, name).At? && D.Lookup(l, 0, name).pos == 0 <==> ShortInFront(l, name)
    ensures ShortInFront(l, name) ==> EntriesOf(l, 0) != [] && EntriesOf(l, 0)[0] == Short(l[0])
  {
    hide D.NameIn, D.IsGroup, D.SfnName, D.ShortName;
    if |l| > 0 && !D.IsLast(l[0]) {
      OneStep(l, 0, name);
      if D.IsFree(l[0]) || !Matches(HeadEntry(l, 0), name) {
        if D.Lookup(l, 0, name).At? {
          D.FoundIsAhead(l, NextEntry(l, 0), name);
        }
      } else if D.IsLfn(l[0]) {
        HeadIsLong(l);
      }
    } else {
      D.LookupAtEnd(l, 0, name);
    }
  }

  /** A long name takes at least one record in front of its short one. */
  lemma HeadIsLong(l: seq<D.Slot>)
    requires D.WellFormed(l, 0) && |l| > 0 && !D.IsFree(l[0]) && D.IsLfn(l[0])
    ensures NextEntry(l, 0) > 1
  {
    hide D.NameIn, D.FragChars, D.Crc;
  }

  /**
   * An entry that is found is refused for its place exactly if it has only a short name and that record is the very
   * first of the root directory: a root directory without a volume label may begin with a file.
   */
  lemma FoundAtRootIff(d: Dir, root: nat, name: D.Name)
    requires d.OnFat() && D.WellFormed(d.List().of, 0) && 2 <= root && (root == d.sclust || root !in d.chain)
    ensures FoundAtRoot(d, root, name) <==> root == d.sclust && ShortInFront(d.List().of, name)
  {
    hide Fat.Valid, Fat.Logical, Dir.OnFat, Dir.List, D.WellFormed, D.Lookup, EntriesOf, AtRoot, ShortInFront;
    var l := d.List().of;
    FoundInFrontIff(l, name);
    if D.Lookup(l, 0, name).At? {
      D.FoundIsAhead(l, 0, name);
      AtRootIff(d, root, D.Lookup(l, 0, name).pos);
    }
  }

  /** On a volume in order the root directory has a chain, and no other directory contains its first cluster. */
  lemma RootIsApart(t: Entries, es: seq<Entry>, m: Chains, home: nat, root: nat)
    requires TreeOk(t, es, m, home) && root in m
    ensures root == home || root !in m[home]
  {
    hide EntriesOk, NothingLost;
    if root != home {
      ChainStart(t, m[root]);
      assert m[root][0] == root && Disjoint(m[root], m[home]);
    }
  }

  /** A file that is the first record of the root, with a short name only: it is found, and cannot be deleted. */
  lemma FirstFileIsRefused(d: Dir, m: Chains, root: nat, name: D.Name)
    requires TreeIn(d, m) && 2 <= root == d.sclust && ShortInFront(d.List().of, name)
    ensures Has(EntriesIn(d), name) && Verdict(d, m, root, name) == ErrDenied
  {
    hide Fat.Valid, Fat.Logical, Dir.OnFat, Dir.List, D.WellFormed, D.Lookup, EntriesOf, ShortInFront, Inside;
    FoundAtRootIff(d, root, name);
    LookupIsFirst(d.List().of, 0, name);
    HasFirst(EntriesIn(d), name);
  }

  /** What fat_unlink answers for a name that is there. */
  ghost function Verdict(d: Dir, m: Chains, root: nat, name: D.Name): Err
    requires 2 <= root && d.OnFat() && D.WellFormed(d.List().of, 0) && First(EntriesIn(d), name) < |EntriesIn(d)|
    reads d, d.fat, d.fat.buf
  {
    var x := EntriesIn(d)[First(EntriesIn(d), name)];
    if FoundAtRoot(d, root, name) then ErrDenied
    else if Undeletable(x.slot) then ErrDenied
    else if IsDirectory(x.slot) then Emptiness(Inside(d, m, Head(x)))
    else Ok
  }

  lemma SpcOk(d: Dir)
    requires d.OnFat()
    ensures 0 < d.fat.g.spc
  {
  }

  /** What a lookup finds and may be deleted is a file or a subdirectory. */
  lemma FoundOwner(e: Entry, name: D.Name)
    requires Matches(e, name) && !Undeletable(e.slot)
    ensures Owner(e)
  {
    NoDotInFront(name);
    assert e.Short? ==> e.slot[0] == D.SfnName(e.slot)[0];
  }

  lemma OwnedChain(t: Entries, es: seq<Entry>, m: Chains, home: nat, i: nat)
    requires TreeOk(t, es, m, home) && i < |es| && Owner(es[i])
    ensures Head(es[i]) in m && IsChain(t, m[Head(es[i])]) && m[Head(es[i])][0] == Head(es[i])
    ensures Disjoint(m[home], m[Head(es[i])])
  {
    assert HasChain(es[i], m, home);
  }

  /** sync_fs: the entries and the data area stay as they are. */
  method WriteBack(d: Dir, ghost m: Chains)
    requires TreeIn(d, m)
    modifies d.fat`disk, d.fat`bufDirty, d.fat`infoDirty, d.fat`sect, d.fat.buf
    ensures TreeIn(d, m) && EntriesIn(d) == old(EntriesIn(d)) && d.fat.Entries() == old(d.fat.Entries())
    ensures SameData(d.fat.g, old(d.fat.Logical()), d.fat.Logical())
    ensures !d.fat.bufDirty && !d.fat.infoDirty
  {
    hide Fat.Logical, Table, Layout, Records, IsChain, EntriesOk, WithInfo, D.WellFormed, EntriesOf, TreeOk, Kept;
    ghost var g, L := d.fat.g, d.fat.Logical();
    LastUsedBound(g, |L.sectors|, d.fat.lastUsed);
    WithInfoKeeps(g, L, d.fat.lastUsed, d.fat.freeCnt);
    KeptData(g, L, WithInfo(g, L, d.fat.lastUsed, d.fat.freeCnt));
    SameRecords(g, L, WithInfo(g, L, d.fat.lastUsed, d.fat.freeCnt), d.chain);
    d.fat.SyncFs();
  }

  /**
   * Deleting by name: the first record of the root, a read-only entry, a system entry, a label and a directory that is
   * not empty are refused; otherwise the clusters are freed, the records marked unused, and everything is written back.
   */
  method Unlink(d: Dir, name: D.Name, root: nat, ghost m: Chains) returns (err: Err, ghost m': Chains)
    requires TreeIn(d, m) && 2 <= root
    modifies d, d.nameBuf, d.fat, d.fat.buf
    ensures TreeIn(d, m')
    ensures var es, i := old(EntriesIn(d)), First(old(EntriesIn(d)), name);
      && err == (if i == |es| then ErrEof else old(Verdict(d, m, root, name)))
      && EntriesIn(d) == (if err.Ok? then Without(es, i) else es)
      && (!err.Ok? ==> m' == m && d.fat.Entries() == old(d.fat.Entries()))
      && (err.Ok? ==>
        && Head(es[i]) in m && m' == m - {Head(es[i])}
        && d.fat.freeCnt == Wrap(old(d.fat.freeCnt) + |m[Head(es[i])]|)
        && !d.fat.bufDirty && !d.fat.infoDirty)
  {
    hide Fat.Valid, Fat.Logical, Dir.OnFat, Dir.Loaded, Dir.List, Dir.At, Located, D.WellFormed, EntriesOf, D.Lookup, D.SfnCluster, Matches, First, DirOk, Records;
    hide TreeOk, Owner, IsChain, Emptiness, ClustToSect;
    d.Basics();
    ghost var es, t := EntriesIn(d), d.fat.Entries();
    ghost var i := First(es, name);
    HasFirst(es, name);
    m' := m;
    var locSect, locIdx;
    ghost var first, pos;
    err, locSect, locIdx, first, pos := Find(d, name);
    if err != Ok {
      return;
    }
    d.LoadedIsSeen(pos);
    SpcOk(d);
    AtRootHere(d, root, pos);
    if d.clust == root && d.sect == ClustToSect(d.fat.g, root) && d.idx == 0 {
      return ErrDenied, m';
    }
    var attr := d.fat.buf[d.idx + 11] as int;
    var clust := d.ClusterInBuffer(pos);
    if attr % 2 == 1 || attr / 4 % 2 == 1 || attr / 8 % 2 == 1 {
      return ErrDenied, m';
    }
    FoundOwner(es[i], name);
    OwnedChain(t, es, m, d.sclust, i);
    if attr / 16 % 2 == 1 {
      err := CheckEmpty(d, clust, m[clust], pos);
      if err != Ok {
        return;
      }
    }
    m' := Delete(d, name, clust, locSect, locIdx, first, pos, m);
  }

  /** The deletion itself, with the cursor on the entry at record pos. */
  method Delete(d: Dir, name: D.Name, clust: nat, locSect: nat, locIdx: nat, ghost first: nat, ghost pos: nat, ghost m: Chains) returns (ghost m': Chains)
    requires TreeIn(d, m) && d.At(pos) && D.Lookup(d.List().of, 0, name) == D.At(first, pos) && first <= pos
    requires Located(d.fat.g, d.chain, first, locSect, locIdx) && Has(EntriesIn(d), name)
    requires Owner(EntriesIn(d)[First(EntriesIn(d), name)]) && clust == Head(EntriesIn(d)[First(EntriesIn(d), name)])
    modifies d`clust, d`sect, d`idx, d.fat, d.fat.buf
    ensures TreeIn(d, m') && EntriesIn(d) == Without(old(EntriesIn(d)), First(old(EntriesIn(d)), name))
    ensures clust in m && m' == m - {clust}
    ensures d.fat.freeCnt == Wrap(old(d.fat.freeCnt) + |m[clust]|) && !d.fat.bufDirty && !d.fat.infoDirty
  {
    hide Fat.Valid, Fat.Logical, Dir.OnFat, Dir.Loaded, Dir.List, Dir.At, Located, D.WellFormed, EntriesOf, D.Lookup, D.SfnCluster, D.Cleared, First, Matches;
    hide TreeOk, Within, Owner, Grown, Zeroed, IsChain, Without;
    d.Basics();
    ghost var es, t, l, i := EntriesIn(d), d.fat.Entries(), d.List(), First(EntriesIn(d), name);
    OwnedChain(t, es, m, d.sclust, i);
    RemoveOtherChain(d, clust, m[clust], pos);
    d.Grounded(pos);
    ghost var L1 := d.fat.Logical();
    d.RemoveEntries(locSect, locIdx, first, pos);
    d.Grounded(pos);
    WithinGrown(d.fat.g, L1, d.chain, d.fat.Logical(), d.chain);
    TreeDeleted(t, es, m, d.sclust, i, d.fat.Entries());
    EntriesCleared(l.of, d.List().of, 0, first, pos, name);
    m' := m - {clust};
    WriteBack(d, m');
  }

  // ---- Creating a directory

  /** A cluster outside the directory's chain has been cleared: its records mark the end, and nothing else has changed. */
  lemma ClusterCleared(g: Geometry, L: Disk, R: Disk, q: seq<nat>, c: nat)
    requires DirOk(g, L, q) && DirOk(g, L, [c]) && ClearedUpTo(g, L, R, c, g.spc)
    ensures DirOk(g, R, q) && DirOk(g, R, [c]) && Table(g, R) == Table(g, L) && Within(g, L, [c], R, [c])
    ensures forall k :: 0 <= k < |Records(g, R, [c])| ==> D.IsLast(Records(g, R, [c])[k])
  {
    hide Table, Layout, Records, IsChain, EntriesOk, SectToClust;
    OneCluster(g, c);
    ClearedTable(g, L, R, c, g.spc);
    assert [] + [c] == [c];
    ClearedCluster(g, L, R, [], c);
    NoRecords(g, L);
    forall s | g.dataSect <= s < |R.sectors| && SectToClust(g, s) !in [c]
      ensures R.sectors[s] == L.sectors[s]
    {
      NotCleared(g, |L.sectors|, c, s);
    }
    GrownFromStart(Table(g, L), [c]);
  }

  lemma OneCluster(g: Geometry, c: nat)
    requires OnVolume(g, [c])
    ensures IsCluster(g, c)
  {
    assert [c][0] == c;
  }

  lemma NoRecords(g: Geometry, L: Disk)
    requires TableFits(g, L)
    ensures OnVolume(g, []) && Records(g, L, []) == []
  {
    assert FileSize(g, []) == 0;
  }

  /** The records of a directory whose chain has at least one cluster. */
  lemma ManyRecords(g: Geometry, L: Disk, q: seq<nat>)
    requires DirOk(g, L, q)
    ensures 16 <= |Records(g, L, q)|
  {
    hide Table, Layout, IsChain, EntriesOk;
    ChainStart(Table(g, L), q);
    var n := |q| * g.spc;
    MulMono(1, |q|, g.spc);
    assert |FileBytes(g, L, q)| == n * 512;
  }

  /** What has been done to one directory leaves the records of another alone. */
  lemma OtherRecords(g: Geometry, L: Disk, q: seq<nat>, R: Disk, q': seq<nat>, r: seq<nat>)
    requires DirOk(g, L, r) && Within(g, L, q, R, q') && Disjoint(r, q)
    ensures DirOk(g, R, r) && Records(g, R, r) == Records(g, L, r)
  {
    hide Table, Layout, IsChain, Confined, FileBytes, EntriesOk;
    OthersKept(g, L, q, R, q', r);
    WithinOk(g, L, q, R, q');
  }

  lemma WithinOk(g: Geometry, L: Disk, q: seq<nat>, R: Disk, q': seq<nat>)
    requires Within(g, L, q, R, q')
    ensures EntriesOk(Table(g, R))
  {
  }

  /** Clears the new cluster and writes the records for the directory itself and for its parent. */
  method WriteDots(d: Dir, clust: nat, parent: nat, time: nat, date: nat)
    requires d.OnFat() && DirOk(d.fat.g, d.fat.Logical(), [clust]) && clust !in d.chain && clust < WORD_MOD && parent < WORD_MOD
    modifies d.fat`disk, d.fat`bufDirty, d.fat`sect, d.fat.buf
    ensures d.OnFat() && d.List() == old(d.List()) && Within(d.fat.g, old(d.fat.Logical()), [clust], d.fat.Logical(), [clust])
    ensures DirOk(d.fat.g, d.fat.Logical(), [clust]) && IsNew(Records(d.fat.g, d.fat.Logical(), [clust]), clust, parent, time, date)
  {
    hide Fat.Valid, Fat.Logical, Dir.OnFat, Dir.At, Dir.List, Records, DirOk, Within, D.SfnSlot, DotName;
    DirectoryFacts(d);
    ghost var g, L := d.fat.g, d.fat.Logical();
    var sub := ClearCluster(d, clust);
    ghost var l := sub.List();
    sub.WriteSfn(DotName(1), ATTR_DIR, clust, time, date, 0, L, [clust]);
    var err := sub.DirNext(0);
    sub.WriteSfn(DotName(2), ATTR_DIR, parent, time, date, 1, L, [clust]);
    sub.Grounded(1);
    NewRecords(sub, l, clust, parent, time, date);
    Beside(d, L, clust);
  }

  lemma NewRecords(sub: Dir, l: Listing, clust: nat, parent: nat, time: nat, date: nat)
    requires sub.OnFat() && 16 <= |l.of| && forall k :: 0 <= k < |l.of| ==> D.IsLast(l.of[k])
    requires sub.List().of == l.of[0 := D.SfnSlot(DotName(1), ATTR_DIR, clust, time, date)][1 := D.SfnSlot(DotName(2), ATTR_DIR, parent, time, date)]
    ensures DirOk(sub.fat.g, sub.fat.Logical(), sub.chain)
    ensures IsNew(Records(sub.fat.g, sub.fat.Logical(), sub.chain), clust, parent, time, date)
  {
    hide DirOk, Records, D.SfnSlot, DotName;
  }

  lemma DirectoryFacts(d: Dir)
    requires d.OnFat()
    ensures d.fat.Valid() && IsCluster(d.fat.g, d.fat.lastUsed) && d.nameBuf.Length == 512 && d.nameBuf != d.fat.buf
    ensures DirOk(d.fat.g, d.fat.Logical(), d.chain) && 0 < |d.chain| && d.chain[0] == d.sclust
    ensures d.List() == Listing(Records(d.fat.g, d.fat.Logical(), d.chain))
  {
    hide Table, Layout, EntriesOk;
  }

  /** The directory next to a cluster in which all changes have been made. */
  lemma Beside(d: Dir, L: Disk, clust: nat)
    requires d.fat.Valid() && IsCluster(d.fat.g, d.fat.lastUsed) && d.nameBuf.Length == 512 && d.nameBuf != d.fat.buf
    requires DirOk(d.fat.g, L, d.chain) && 0 < |d.chain| && d.chain[0] == d.sclust && clust !in d.chain
    requires Within(d.fat.g, L, [clust], d.fat.Logical(), [clust])
    ensures d.OnFat() && d.List() == Listing(Records(d.fat.g, L, d.chain))
  {
    hide DirOk, Records, Within;
    OtherRecords(d.fat.g, L, [clust], d.fat.Logical(), [clust], d.chain);
  }

  /** clust_clear of the new cluster. */
  method ClearCluster(d: Dir, clust: nat) returns (sub: Dir)
    requires d.OnFat() && DirOk(d.fat.g, d.fat.Logical(), [clust]) && clust !in d.chain
    modifies d.fat`disk, d.fat`bufDirty, d.fat`sect, d.fat.buf
    ensures fresh(sub) && fresh(sub.nameBuf) && sub.fat == d.fat && sub.chain == [clust] && sub.At(0) && sub.OnFat() && d.fat.Valid()
    ensures Within(d.fat.g, old(d.fat.Logical()), [clust], d.fat.Logical(), [clust])
    ensures 16 <= |sub.List().of| && forall k :: 0 <= k < |sub.List().of| ==> D.IsLast(sub.List().of[k])
  {
    hide Fat.Logical, Table, Layout, Records, IsChain, EntriesOk, Within, ClearedUpTo, Stands;
    ghost var g, L := d.fat.g, d.fat.Logical();
    OneCluster(g, clust);
    d.fat.ClustClear(clust);
    ClusterCleared(g, L, d.fat.Logical(), d.chain, clust);
    ManyRecords(g, d.fat.Logical(), [clust]);
    sub := new Dir.Enter(d.fat, clust, [clust]);
  }

  /** A chain that has just been started shares nothing with the directory's. */
  lemma NewChain(t: Entries, es: seq<Entry>, m: Chains, home: nat, c: nat)
    requires TreeOk(t, es, m, home) && c in m && c != home && m[c] == [c]
    ensures IsChain(t, [c]) && home in m && c !in m[home]
  {
    assert Disjoint(m[c], m[home]);
  }

  /** The new chain written to, and the directory beside it as it was. */
  method StartDirectory(d: Dir, clust: nat, parent: nat, time: nat, date: nat, ghost m: Chains)
    requires TreeIn(d, m) && clust in m && m[clust] == [clust] && clust != d.sclust && clust < WORD_MOD && parent < WORD_MOD
    modifies d.fat`disk, d.fat`bufDirty, d.fat`sect, d.fat.buf
    ensures TreeIn(d, m) && EntriesIn(d) == old(EntriesIn(d))
    ensures clust !in d.chain && DirOk(d.fat.g, d.fat.Logical(), [clust]) && IsNew(Records(d.fat.g, d.fat.Logical(), [clust]), clust, parent, time, date)
  {
    hide Fat.Valid, Fat.Logical, Dir.OnFat, Dir.List, D.WellFormed, EntriesOf, TreeOk, DirOk, Records, Within, Grown, IsNew;
    DirectoryFacts(d);
    ghost var es, t, g, L := EntriesIn(d), d.fat.Entries(), d.fat.g, d.fat.Logical();
    NewChain(t, es, m, d.sclust, clust);
    SubdirectoryOk(g, L, d.chain, [clust]);
    WriteDots(d, clust, parent, time, date);
    DirectoryFacts(d);
    WithinGrown(g, L, [clust], d.fat.Logical(), [clust]);
    TreeGrown(t, es, m, d.sclust, clust, d.fat.Entries(), [clust]);
    assert m[clust := [clust]] == m;
  }

  /** What a change to one directory leaves of another, and what writing back leaves of it. */
  lemma StillNew(g: Geometry, L: Disk, q: seq<nat>, R: Disk, q': seq<nat>, S: Disk, c: nat, clust: nat, parent: nat, time: nat, date: nat)
    requires DirOk(g, L, [c]) && c !in q && Within(g, L, q, R, q') && SameData(g, R, S)
    requires TableFits(g, S) && Table(g, S) == Table(g, R) && IsNew(Records(g, L, [c]), clust, parent, time, date)
    ensures DirOk(g, S, [c]) && IsNew(Records(g, S, [c]), clust, parent, time, date)
  {
    hide Table, Layout, IsChain, Records, EntriesOk, Within, IsNew;
    OtherRecords(g, L, q, R, q', [c]);
    SameRecords(g, R, S, [c]);
  }

  /**
   * fat_dir_create: a directory with the records for itself and its parent, and an entry that leads to it. A name
   * that is there already is left alone and counts as success; root is the first cluster of the root directory.
   */
  method MakeDirectory(d: Dir, name: D.Name, root: nat, time: nat, date: nat, ghost m: Chains) returns (err: Err, ghost m': Chains, ghost slot: D.Slot)
    requires TreeIn(d, m) && Nameable(name)
    modifies d, d.nameBuf, d.fat, d.fat.buf
    ensures TreeIn(d, m')
    ensures Has(old(EntriesIn(d)), name) ==> err.Ok? && EntriesIn(d) == old(EntriesIn(d)) && m' == m && d.fat.Entries() == old(d.fat.Entries())
    ensures !Has(old(EntriesIn(d)), name) ==>
      && (if err.Ok? then Inserted(old(EntriesIn(d)), EntriesIn(d), Long(name, slot)) else EntriesIn(d) == old(EntriesIn(d)))
      && (err.Ok? ==>
        var clust := D.SfnCluster(slot);
        && IsDirectory(slot) && clust !in m && m' == m[clust := [clust]][d.sclust := d.chain] && |name| <= 255
        && IsNew(Inside(d, m', clust), clust, if d.sclust == root then 0 else d.sclust, time, date)
        && !d.fat.bufDirty && !d.fat.infoDirty)
      && (err.ErrParam? ==> |name| > 255)
      && (err.Ok? || err.ErrParam? || (err.ErrFull? && (old(Exhausted(d.fat.Entries(), d.fat.lastUsed, 0)) || d.NoCluster())))
  {
    hide Fat.Valid, Fat.Logical, Dir.OnFat, Dir.Loaded, Dir.List, Dir.At, Dir.NoCluster, Exhausted, Located, D.WellFormed, EntriesOf, D.Lookup, D.SfnCluster, IsDirectory, TreeOk, Inserted, Has;
    hide DirOk, Records, Within, IsNew, Unowned, SameData;
    d.Basics();
    ghost var es, t := EntriesIn(d), d.fat.Entries();
    m', slot := m, Zeros()[..32];
    var locSect, locIdx;
    ghost var found, pos;
    err, locSect, locIdx, found, pos := Find(d, name);
    if err != ErrEof {
      return;
    }
    var clust;
    err, clust := CreateChain(d);
    if err != Ok {
      return;
    }
    TreeStarted(t, es, m, d.sclust, clust);
    err, m', slot := FillDirectory(d, name, clust, root, time, date, m[clust := [clust]]);
  }

  /** The part of fat_dir_create behind the allocation of the first cluster. */
  method FillDirectory(d: Dir, name: D.Name, clust: nat, root: nat, time: nat, date: nat, ghost m: Chains) returns (err: Err, ghost m': Chains, ghost slot: D.Slot)
    requires TreeIn(d, m) && Nameable(name) && !Has(EntriesIn(d), name)
    requires clust in m && m[clust] == [clust] && clust != d.sclust && clust < WORD_MOD && Unowned(EntriesIn(d), clust)
    modifies d, d.nameBuf, d.fat, d.fat.buf
    ensures TreeIn(d, m') && m' == m[d.sclust := d.chain]
    ensures if err.Ok? then Inserted(old(EntriesIn(d)), EntriesIn(d), Long(name, slot)) else EntriesIn(d) == old(EntriesIn(d))
    ensures D.SfnCluster(slot) == clust && IsDirectory(slot)
    ensures err.Ok? ==>
      && IsNew(Inside(d, m', clust), clust, if d.sclust == root then 0 else d.sclust, time, date)
      && !d.fat.bufDirty && !d.fat.infoDirty
    ensures err.ErrParam? <==> |name| > 255
    ensures err.Ok? || err.ErrParam? || (err.ErrFull? && d.NoCluster())
  {
    hide Fat.Valid, Fat.Logical, Dir.OnFat, Dir.Loaded, Dir.List, Dir.At, Dir.NoCluster, D.WellFormed, EntriesOf, D.SfnCluster, IsDirectory, TreeOk, Inserted, Has;
    hide DirOk, Records, Within, IsNew, Unowned, SameData;
    HomeBound(d);
    var parent := if d.sclust == root then 0 else d.sclust;
    StartDirectory(d, clust, parent, time, date, m);
    DirectoryFacts(d);
    ghost var g, L, q := d.fat.g, d.fat.Logical(), d.chain;
    err, m', slot := AddEntry(d, name, ATTR_DIR, clust, time, date, m);
    DirectoryFacts(d);
    if err != Ok {
      return;
    }
    ghost var R := d.fat.Logical();
    WriteBack(d, m');
    DirectoryFacts(d);
    DirectoryTable(g, d.fat.Logical(), d.chain);
    StillNew(g, L, q, R, d.chain, d.fat.Logical(), clust, clust, parent, time, date);
  }

  lemma DirectoryTable(g: Geometry, L: Disk, q: seq<nat>)
    requires DirOk(g, L, q)
    ensures TableFits(g, L)
  {
  }

  lemma HomeBound(d: Dir)
    requires d.OnFat()
    ensures d.sclust < WORD_MOD
  {
    hide Table, EntriesOk, IsChain;
    DirectoryFacts(d);
    assert IsCluster(d.fat.g, d.chain[0]);
    LayoutBounds(d.fat.g, |d.fat.Logical().sectors|);
  }

  // ---- Whole runs

  datatype Request = MakeFile(name: D.Name, time: nat, date: nat) | MakeDir(name: D.Name, time: nat, date: nat) | Drop(name: D.Name)

  /** cs is what the requests ask for, once it is known which entries were made for them. */
  ghost predicate Asked(ops: seq<Request>, cs: seq<Change>) {
    |cs| == |ops| && forall i :: 0 <= i < |ops| ==> AskedAt(ops[i], cs[i])
  }

  ghost predicate AskedAt(op: Request, c: Change) {
    c.name == op.name && (c.Ensure? <==> !op.Drop?) && (c.Ensure? ==> (IsDirectory(c.slot) <==> op.MakeDir?))
  }

  /** One request, with the change it stands for. */
  method Serve(d: Dir, op: Request, root: nat, ghost m: Chains) returns (ok: bool, ghost c: Change, ghost m': Chains)
    requires TreeIn(d, m) && Nameable(op.name) && 2 <= root
    modifies d, d.nameBuf, d.fat, d.fat.buf
    ensures TreeIn(d, m') && AskedAt(op, c) && Changed(old(EntriesIn(d)), c, ok, EntriesIn(d))
  {
    hide Fat.Valid, Fat.Logical, Dir.OnFat, Dir.List, Dir.NoCluster, Exhausted, D.WellFormed, EntriesOf, D.SfnCluster, TreeOk, Inserted, Has, First, Without, IsNew, Inside, Verdict, IsDirectory;
    var err;
    ghost var es := EntriesIn(d);
    HasFirst(es, op.name);
    if op.Drop? {
      c := Discard(op.name);
      err, m' := Unlink(d, op.name, root, m);
    } else if op.MakeFile? {
      var first;
      ghost var slot;
      err, first, m', slot := FindOrCreate(d, op.name, true, op.time, op.date, m);
      c := Ensure(op.name, if Has(es, op.name) || err != Ok then Sample(ATTR_ARCHIVE) else slot);
    } else {
      ghost var slot;
      err, m', slot := MakeDirectory(d, op.name, root, op.time, op.date, m);
      c := Ensure(op.name, if Has(es, op.name) || err != Ok then Sample(ATTR_DIR) else slot);
    }
    ok := err == Ok;
  }

  /** Stands for the entry of a request that made none. */
  ghost function Sample(attr: byte): (s: D.Slot)
    requires PlainAttr(attr)
    ensures IsDirectory(s) <==> attr == ATTR_DIR
  {
    seq(32, i requires 0 <= i < 32 => if i == 11 then attr else 0)
  }

  /**
   * Any sequence of creations and deletions of files and directories: it is a run of the list of entries, so that
   * LastChangeDecides says which names are there, and the tree stays in order whatever failed.
   */
  method Perform(d: Dir, ops: seq<Request>, root: nat, ghost m: Chains) returns (oks: seq<bool>, ghost cs: seq<Change>, ghost states: seq<Directory>, ghost m': Chains)
    requires TreeIn(d, m) && 2 <= root && forall i :: 0 <= i < |ops| ==> Nameable(ops[i].name)
    modifies d, d.nameBuf, d.fat, d.fat.buf
    ensures TreeIn(d, m') && Asked(ops, cs) && Trace(states, cs, oks)
    ensures states[0].es == old(EntriesIn(d)) && states[|ops|].es == EntriesIn(d)
  {
    hide TreeIn, Nameable, Dir.OnFat, Dir.List, D.WellFormed, EntriesOf, Fat.Valid, Changed, IsDirectory;
    TreeHolds(d, m);
    oks, cs, states, m' := [], [], [Directory(EntriesIn(d))], m;
    for i := 0 to |ops|
      invariant TreeIn(d, m') && d.OnFat() && D.WellFormed(d.List().of, 0)
      invariant Asked(ops[..i], cs) && |oks| == i && Trace(states, cs, oks)
      invariant states[0].es == old(EntriesIn(d)) && states[i].es == EntriesIn(d)
    {
      var ok;
      ghost var c;
      ok, c, m' := Serve(d, ops[i], root, m');
      TreeHolds(d, m');
      TraceGoesOn(states, cs, oks, c, ok, Directory(EntriesIn(d)));
      assert ops[..i + 1] == ops[..i] + [ops[i]];
      oks, cs, states := oks + [ok], cs + [c], states + [Directory(EntriesIn(d))];
    }
    assert ops[..|ops|] == ops;
  }

  lemma TraceGoesOn(states: seq<Directory>, cs: seq<Change>, oks: seq<bool>, c: Change, ok: bool, s: Directory)
    requires Trace(states, cs, oks) && Changed(states[|cs|].es, c, ok, s.es)
    ensures Trace(states + [s], cs + [c], oks + [ok])
  {
    hide Changed;
    forall i | 0 <= i < |cs| + 1
      ensures ChangedAt(states + [s], cs + [c], oks + [ok], i)
    {
      assert i < |cs| ==> ChangedAt(states, cs, oks, i);
    }
  }

  lemma TreeHolds(d: Dir, m: Chains)
    requires TreeIn(d, m)
    ensures d.OnFat() && d.fat.Valid() && D.WellFormed(d.List().of, 0)
  {
  }
}
