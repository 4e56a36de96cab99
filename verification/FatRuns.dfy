// Whole runs of chain allocation and removal: whatever the order of the operations, the
// chains of a volume stay acyclic, disjoint and complete, and the free count stays exact.
module FatRuns {
  import opened Machine
  import opened FatDisk
  import opened FatChains
  import opened FatVolume

  /** What a mounted volume remembers, apart from its buffer. */
  datatype Volume = Volume(L: Disk, lastUsed: nat, freeCnt: nat)

  /** The callers of the allocator: a new file, a file that grows at its end, a file that is deleted. */
  datatype Change = Create | Append(head: nat) | Remove(head: nat)

  ghost predicate VolumeOk(g: Geometry, s: Volume, m: Chains) {
    && TableFits(g, s.L) && Mirrored(g, s.L)
    && Sound(Table(g, s.L), m)
    && IsCluster(g, s.lastUsed) && s.freeCnt == FreeCount(Table(g, s.L))
  }

  ghost predicate Enabled(m: Chains, op: Change) {
    match op
    case Create => true
    case Append(h) => h in m && m[h] != []
    case Remove(h) => h in m && m[h] != []
  }

  /** The cluster after which a change appends; 0 for a new chain. */
  ghost function Tail(m: Chains, op: Change): nat
    requires Enabled(m, op) && !op.Remove?
  {
    if op.Append? then m[op.head][|m[op.head]| - 1] else 0
  }

  /** The chains after cluster c has been allocated for a change. */
  ghost function Allocated(m: Chains, op: Change, c: nat): Chains
    requires Enabled(m, op) && !op.Remove?
  {
    if op.Append? then m[op.head := m[op.head] + [c]] else m[c := [c]]
  }

  /** One operation of the allocator, as its methods promise it, with its effect on the chains. */
  ghost predicate Changed(g: Geometry, s: Volume, m: Chains, op: Change, s': Volume, m': Chains)
    requires VolumeOk(g, s, m) && Enabled(m, op)
  {
    var t := Table(g, s.L);
    match op
    case Remove(h) =>
      h < g.clustCnt && (
        var r := FreeOnDisk(g, s.L, h);
        var free := Wrap(s.freeCnt + r.count);
        m' == m - {h} && s' == Volume(if r.ok then WithInfo(g, r.L, s.lastUsed, free) else r.L, s.lastUsed, free))
    case _ =>
      var prev := Tail(m, op);
      prev < g.clustCnt && (
        if Exhausted(t, s.lastUsed, prev) then s' == s && m' == m
        else
          && NextFit(t, s.lastUsed, prev, s'.lastUsed)
          && s'.freeCnt == Wrap(s.freeCnt - 1)
          && s'.L == StretchedDisk(g, s.L, prev, s'.lastUsed, s'.freeCnt)
          && m' == Allocated(m, op, s'.lastUsed))
  }

  lemma TailInUse(t: Entries, m: Chains, h: nat)
    requires Sound(t, m) && h in m
    ensures m[h] != [] && InTable(t, m[h][|m[h]| - 1]) && t[m[h][|m[h]| - 1]] != 0
    ensures InTable(t, h) && h == m[h][0]
  {
    ChainStep(t, m[h], |m[h]| - 1);
  }

  lemma StretchedFreeCount(t: Entries, prev: nat, c: nat)
    requires prev < |t| && InTable(t, c) && t[c] == 0 && (prev != 0 ==> t[prev] != 0)
    ensures FreeCount(Stretched(t, prev, c)) == FreeCount(t) - 1
  {
    FreeCountUpdate(t, c, EOC);
    FreeCountUpdate(t[c := EOC], prev, c);
  }

  lemma AllocationKeepsVolumeOk(g: Geometry, s: Volume, m: Chains, op: Change, s': Volume, m': Chains)
    requires VolumeOk(g, s, m) && Enabled(m, op) && !op.Remove? && Changed(g, s, m, op, s', m')
    ensures VolumeOk(g, s', m')
    ensures s' == s || InfoIs(g, s'.L, s'.lastUsed, s'.freeCnt)
  {
    hide Table, Layout, Mirrored, StretchedDisk, Exhausted, NextFit, Sound, FreeCount, InfoIs, EntriesOk;
    LayoutBounds(g, |s.L.sectors|);
    var t, prev := Table(g, s.L), Tail(m, op);
    if !Exhausted(t, s.lastUsed, prev) {
      var c := s'.lastUsed;
      NextFitIsFree(t, s.lastUsed, prev, c);
      StretchedDiskEffect(g, s.L, prev, c, s'.freeCnt);
      if op.Append? {
        TailInUse(t, m, op.head);
        StretchKeepsSound(t, m, op.head, c);
      } else {
        CreateKeepsSound(t, m, c);
      }
      StretchedFreeCount(t, prev, c);
      WrapSmall(s.freeCnt - 1);
    }
  }

  lemma RemovalKeepsVolumeOk(g: Geometry, s: Volume, m: Chains, h: nat, s': Volume, m': Chains)
    requires VolumeOk(g, s, m) && Enabled(m, Remove(h)) && Changed(g, s, m, Remove(h), s', m')
    ensures VolumeOk(g, s', m')
    ensures InfoIs(g, s'.L, s'.lastUsed, s'.freeCnt)
    ensures Table(g, s'.L) == Zeroed(Table(g, s.L), m[h]) && s'.freeCnt == s.freeCnt + |m[h]|
  {
    hide Table, Layout, Mirrored, FreeOnDisk, WithInfo, Sound, FreeCount, InfoIs, FreeWalk;
    LayoutBounds(g, |s.L.sectors|);
    var t, r := Table(g, s.L), FreeOnDisk(g, s.L, h);
    TailInUse(t, m, h);
    SoundChain(t, m, h);
    FreeOnDiskEffect(g, s.L, h);
    FreeWalkOfChain(t, m[h]);
    FreeWalkCounts(t, h);
    RemoveKeepsSound(t, m, h);
    WrapSmall(s.freeCnt + r.count);
    WithInfoKeeps(g, r.L, s.lastUsed, s'.freeCnt);
  }

  lemma SoundChain(t: Entries, m: Chains, h: nat)
    requires Sound(t, m) && h in m
    ensures IsChain(t, m[h]) && m[h][0] == h
  {
  }

  /** Every run of the allocator keeps the volume in order. */
  lemma {:induction false} RunKeepsVolumeOk(g: Geometry, states: seq<(Volume, Chains)>, ops: seq<Change>)
    requires |states| == |ops| + 1 && VolumeOk(g, states[0].0, states[0].1)
    requires forall i :: 0 <= i < |ops| ==> StepOf(g, states[i].0, states[i].1, ops[i], states[i + 1].0, states[i + 1].1)
    ensures forall i :: 0 <= i < |states| ==> VolumeOk(g, states[i].0, states[i].1)
  {
    hide VolumeOk, Changed, Enabled;
    for n := 0 to |ops|
      invariant forall i :: 0 <= i <= n ==> VolumeOk(g, states[i].0, states[i].1)
    {
      assert StepOf(g, states[n].0, states[n].1, ops[n], states[n + 1].0, states[n + 1].1);
      StepKeepsVolumeOk(g, states[n].0, states[n].1, ops[n], states[n + 1].0, states[n + 1].1);
    }
  }

  ghost predicate StepOf(g: Geometry, s: Volume, m: Chains, op: Change, s': Volume, m': Chains) {
    VolumeOk(g, s, m) ==> Enabled(m, op) && Changed(g, s, m, op, s', m')
  }

  lemma StepKeepsVolumeOk(g: Geometry, s: Volume, m: Chains, op: Change, s': Volume, m': Chains)
    requires VolumeOk(g, s, m) && StepOf(g, s, m, op, s', m')
    ensures VolumeOk(g, s', m')
  {
    hide VolumeOk, Changed, Enabled;
    if op.Remove? {
      RemovalKeepsVolumeOk(g, s, m, op.head, s', m');
    } else {
      AllocationKeepsVolumeOk(g, s, m, op, s', m');
    }
  }

  /** The mounted volume performs exactly these steps; prev is the cluster to append to, 0 for a new chain. */
  method Perform(fat: Fat, op: Change, prev: nat, ghost m: Chains) returns (err: Err, ghost m': Chains)
    requires fat.Valid() && VolumeOk(fat.g, VolumeOf(fat), m) && Enabled(m, op)
    requires !op.Remove? ==> prev == Tail(m, op)
    modifies fat, fat.buf
    ensures fat.Valid() && Changed(fat.g, old(VolumeOf(fat)), m, op, VolumeOf(fat), m')
    ensures err.Ok? ==> !fat.bufDirty && !fat.infoDirty
    ensures err == if !op.Remove? && Exhausted(Table(fat.g, old(fat.Logical())), old(fat.lastUsed), prev) then ErrFull else Ok
  {
    hide Table, Layout, Mirrored, StretchedDisk, FreeOnDisk, WithInfo, Exhausted, NextFit, Sound, FreeCount, EntriesOk;
    ghost var s := VolumeOf(fat);
    SoundEntries(fat.Entries(), m);
    if op.Remove? {
      TailInUse(fat.Entries(), m, op.head);
      RemovalSucceeds(fat.g, s, m, op.head);
      err := fat.RemoveChain(op.head);
      m' := m - {op.head};
    } else {
      if op.Append? {
        TailInUse(fat.Entries(), m, op.head);
      }
      var c;
      err, c := fat.StretchChain(prev);
      m' := if err.Ok? then Allocated(m, op, c) else m;
    }
  }

  ghost function VolumeOf(fat: Fat): Volume
    requires fat.Valid()
    reads fat, fat.buf
  {
    Volume(fat.Logical(), fat.lastUsed, fat.freeCnt)
  }

  lemma SoundEntries(t: Entries, m: Chains)
    requires Sound(t, m)
    ensures EntriesOk(t)
  {
  }

  /** Removing a whole chain never meets a malformed entry. */
  lemma RemovalSucceeds(g: Geometry, s: Volume, m: Chains, h: nat)
    requires VolumeOk(g, s, m) && h in m
    ensures h < g.clustCnt && FreeOnDisk(g, s.L, h).ok
  {
    hide Table, Layout, Mirrored, FreeOnDisk, Sound, FreeCount, FreeWalk;
    TailInUse(Table(g, s.L), m, h);
    SoundChain(Table(g, s.L), m, h);
    FreeOnDiskEffect(g, s.L, h);
    FreeWalkOfChain(Table(g, s.L), m[h]);
  }
}
