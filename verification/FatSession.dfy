// Whole sessions on an open file: seeks, reads and writes in any order act on one flat sequence of
// bytes, where every read delivers the bytes written last.
module FatSession {
  import opened Machine
  import opened FatDisk
  import opened FatChains
  import opened FatVolume
  import opened FatFileView
  import opened FatFile

  /** A file without clusters and sectors: all its bytes, of which the first size are in use, and the cursor. */
  datatype Flat = Flat(bytes: seq<byte>, size: nat, offset: nat)

  datatype Op = Move(delta: int, whence: Whence) | Take(len: nat) | Give(data: seq<byte>)

  function Destination(s: Flat, op: Op): int
    requires op.Move?
  {
    op.delta + match op.whence case SeekStart => 0 case SeekCurr => s.offset case SeekEnd => s.size
  }

  /** What a successful operation does to the flat file, with out for a read. */
  ghost predicate FlatStep(s: Flat, op: Op, out: seq<byte>, s': Flat) {
    match op
    case Move(_, _) =>
      out == [] && s.bytes <= s'.bytes && s'.size == s.size && s'.offset == Destination(s, op)
    case Take(len) =>
      var n := Readable(s.offset, s.size, len);
      && s.offset + n <= |s.bytes| && out == s.bytes[s.offset..s.offset + n]
      && s.bytes <= s'.bytes && s'.size == s.size && s'.offset == s.offset + n
    case Give(data) =>
      && out == [] && Written(s.bytes, s'.bytes, s.offset, data)
      && s'.offset == s.offset + |data| && s'.size == if s'.offset > s.size then s'.offset else s.size
  }

  ghost predicate IsTrace(states: seq<Flat>, ops: seq<Op>, outs: seq<seq<byte>>) {
    && |states| == |ops| + 1 && |outs| == |ops|
    && forall i :: 0 <= i < |ops| ==> StepAt(states, ops, outs, i)
  }

  ghost predicate StepAt(states: seq<Flat>, ops: seq<Op>, outs: seq<seq<byte>>, i: nat)
    requires |states| == |ops| + 1 && |outs| == |ops|
  {
    i < |ops| && FlatStep(states[i], ops[i], outs[i], states[i + 1])
  }

  predicate Covered(s: Flat, op: Op, at: nat) {
    op.Give? && s.offset <= at < s.offset + |op.data|
  }

  /** The last of the first n operations that wrote byte at; -1 if none did. */
  function LastGive(states: seq<Flat>, ops: seq<Op>, at: nat, n: nat): (j: int)
    requires |states| == |ops| + 1 && n <= |ops|
    ensures -1 <= j < n
    ensures j >= 0 ==> Covered(states[j], ops[j], at)
    ensures forall i :: j < i < n ==> !Covered(states[i], ops[i], at)
  {
    if n == 0 then -1
    else if Covered(states[n - 1], ops[n - 1], at) then n - 1
    else LastGive(states, ops, at, n - 1)
  }

  /** After any number of operations a byte has the value written to it last, or its first value if none was. */
  lemma {:induction false} BytesAreLastWritten(states: seq<Flat>, ops: seq<Op>, outs: seq<seq<byte>>, n: nat, at: nat)
    requires IsTrace(states, ops, outs) && n <= |ops|
    ensures |states[0].bytes| <= |states[n].bytes|
    ensures var j := LastGive(states, ops, at, n);
      if j >= 0 then at < |states[n].bytes| && states[n].bytes[at] == ops[j].data[at - states[j].offset]
      else at < |states[0].bytes| ==> states[n].bytes[at] == states[0].bytes[at]
    decreases n
  {
    if n > 0 {
      BytesAreLastWritten(states, ops, outs, n - 1, at);
      assert StepAt(states, ops, outs, n - 1);
    }
  }

  /** A read delivers, byte for byte, what was written last in front of it, or what was there at the start. */
  lemma ReadsAreLastWritten(states: seq<Flat>, ops: seq<Op>, outs: seq<seq<byte>>, n: nat, k: nat)
    requires IsTrace(states, ops, outs) && n < |ops| && ops[n].Take? && k < |outs[n]|
    ensures var at := states[n].offset + k;
      var j := LastGive(states, ops, at, n);
      at < states[n].size &&
      if j >= 0 then outs[n][k] == ops[j].data[at - states[j].offset]
      else at < |states[0].bytes| ==> outs[n][k] == states[0].bytes[at]
  {
    assert StepAt(states, ops, outs, n);
    BytesAreLastWritten(states, ops, outs, n, states[n].offset + k);
  }

  /** The size never shrinks, and is that at the start or where the write that reached furthest ended. */
  lemma {:induction false} SizeIsFurthestEnd(states: seq<Flat>, ops: seq<Op>, outs: seq<seq<byte>>, n: nat)
    requires IsTrace(states, ops, outs) && n <= |ops|
    ensures states[0].size <= states[n].size
    ensures forall i :: 0 <= i < n && ops[i].Give? ==> states[i].offset + |ops[i].data| <= states[n].size
    ensures states[n].size == states[0].size
         || exists i :: 0 <= i < n && ops[i].Give? && states[n].size == states[i].offset + |ops[i].data|
    decreases n
  {
    if n > 0 {
      SizeIsFurthestEnd(states, ops, outs, n - 1);
      assert StepAt(states, ops, outs, n - 1);
    }
  }

  // ---- The file performs exactly these steps

  ghost function FlatOf(f: File): Flat
    requires f.Buffered()
    reads f, f.fat, f.fat.buf, f.buf
  {
    Flat(f.Contents(), f.size, f.offset)
  }

  /** On a file of that size the operation is allowed, and the clusters it needs can be had. */
  ghost predicate CanDo(g: Geometry, v: View, size: nat, canRead: bool, canWrite: bool, op: Op)
    requires ViewOk(g, v)
  {
    match op
    case Move(_, _) =>
      var to := Destination(Flat(Bytes(g, v), size, v.offset), op);
      0 <= to <= NO_SECTOR && RoomUpTo(g, v, to)
    case Take(len) =>
      var n := Readable(v.offset, size, len);
      canRead && (n == 0 || RoomUpTo(g, v, v.offset + n))
    case Give(data) =>
      canWrite && (|data| == 0 || (v.offset + |data| <= NO_SECTOR && RoomUpTo(g, v, v.offset + |data|)))
  }

  ghost predicate Doable(f: File, op: Op)
    requires f.Buffered() && ViewOk(f.fat.g, f.Now())
    reads f, f.fat, f.fat.buf, f.buf
  {
    CanDo(f.fat.g, f.Now(), f.size, f.canRead, f.canWrite, op)
  }

  /** One operation; it succeeds exactly when it can, and whatever happens no other file is affected. */
  method Do(f: File, op: Op) returns (ok: bool, out: seq<byte>)
    requires f.Valid() && f.sect != NO_SECTOR
    modifies f, f.buf, f.fat, f.fat.buf
    ensures f.Buffered() && ViewOk(f.fat.g, old(f.Now())) && ViewOk(f.fat.g, f.Now())
    ensures ok == old(Doable(f, op))
    ensures ok ==> f.Valid() && f.sect != NO_SECTOR && FlatStep(old(FlatOf(f)), op, out, FlatOf(f))
    ensures Confined(f.fat.g, old(f.Image()), old(f.chain), f.Image(), f.chain)
  {
    hide Table, Layout, Confined, RoomUpTo, FlatStep, ViewOk, File.Valid, File.Buffered, File.Now, Destination, Readable, File.Image, File.Contents;
    out := [];
    f.ValidIsBuffered();
    if op.Move? {
      ok := DoMove(f, op);
    } else if op.Take? {
      ok, out := DoTake(f, op);
    } else {
      ok := DoGive(f, op);
    }
  }

  method DoMove(f: File, op: Op) returns (ok: bool)
    requires f.Valid() && op.Move?
    modifies f, f.buf, f.fat, f.fat.buf
    ensures f.Buffered() && ViewOk(f.fat.g, old(f.Now())) && ViewOk(f.fat.g, f.Now())
    ensures ok == old(Doable(f, op))
    ensures ok ==> f.Valid() && f.sect != NO_SECTOR && FlatStep(old(FlatOf(f)), op, [], FlatOf(f))
    ensures Confined(f.fat.g, old(f.Image()), old(f.chain), f.Image(), f.chain)
  {
    hide Table, Layout, Extended, Confined, Room, IsChain, EntriesOk, Covers, Holds, FileSize, SectorFor, FileBytes, ClusterIndex;
    f.NowIsOk();
    ghost var g, v, size := f.fat.g, f.Now(), f.size;
    var err := f.Seek(op.delta, op.whence);
    ok := err == Ok;
    f.NowIsOk();
    Prolonged(g, v, f.Now());
  }

  method DoTake(f: File, op: Op) returns (ok: bool, out: seq<byte>)
    requires f.Valid() && f.sect != NO_SECTOR && op.Take?
    modifies f, f.buf, f.fat, f.fat.buf
    ensures f.Buffered() && ViewOk(f.fat.g, old(f.Now())) && ViewOk(f.fat.g, f.Now())
    ensures ok == old(Doable(f, op))
    ensures ok ==> f.Valid() && f.sect != NO_SECTOR && FlatStep(old(FlatOf(f)), op, out, FlatOf(f))
    ensures Confined(f.fat.g, old(f.Image()), old(f.chain), f.Image(), f.chain)
  {
    hide Table, Layout, Extended, Confined, RoomUpTo, IsChain, EntriesOk, Covers, Holds, FileSize, SectorFor, FileBytes, ClusterIndex, Readable;
    f.NowIsOk();
    ghost var g, v := f.fat.g, f.Now();
    ConfinedFromStart(g, v.image, v.chain);
    var err;
    err, out := f.Read(op.len);
    ok := err == Ok;
    f.NowIsOk();
    if f.canRead {
      Prolonged(g, v, f.Now());
    }
  }

  method DoGive(f: File, op: Op) returns (ok: bool)
    requires f.Valid() && f.sect != NO_SECTOR && op.Give?
    modifies f, f.buf, f.fat, f.fat.buf
    ensures f.Buffered() && ViewOk(f.fat.g, old(f.Now())) && ViewOk(f.fat.g, f.Now())
    ensures ok == old(Doable(f, op))
    ensures ok ==> f.Valid() && f.sect != NO_SECTOR && FlatStep(old(FlatOf(f)), op, [], FlatOf(f))
    ensures Confined(f.fat.g, old(f.Image()), old(f.chain), f.Image(), f.chain)
  {
    hide Table, Layout, Confined, RoomUpTo, IsChain, EntriesOk, Covers, Holds, FileSize, SectorFor, FileBytes, ClusterIndex, Written;
    f.NowIsOk();
    ghost var g, v := f.fat.g, f.Now();
    ConfinedFromStart(g, v.image, v.chain);
    var at := f.offset;
    var err, bytes;
    ghost var inner;
    err, bytes, inner := f.Write(op.data);
    ok := err == Ok && f.offset == at + |op.data|;
    assert bytes == |op.data| ==> op.data[..bytes] == op.data;
    f.NowIsOk();
  }

  lemma Prolonged(g: Geometry, v: View, w: View)
    requires ViewOk(g, v) && ViewOk(g, w) && Extended(g, v.image, v.chain, w.image, w.chain)
    ensures Confined(g, v.image, v.chain, w.image, w.chain) && Bytes(g, v) <= Bytes(g, w)
  {
    hide Table, Layout, Extended, Confined, IsChain, EntriesOk, Covers, FileBytes;
    ConfinedFromStart(g, v.image, v.chain);
    ConfinedByExtension(g, v.image, v.chain, v.image, v.chain, w.image, w.chain);
    ExtendedBytes(g, v.image, v.chain, w.image, w.chain);
  }

  /**
   * A session: the operations in order, up to the first that cannot be done. What it read is what the flat
   * file says, and no byte outside the file's own clusters has changed.
   */
  method Session(f: File, ops: seq<Op>) returns (outs: seq<seq<byte>>, ghost states: seq<Flat>, ghost stop: View)
    requires f.Valid() && f.sect != NO_SECTOR
    modifies f, f.buf, f.fat, f.fat.buf
    ensures f.Buffered() && ViewOk(f.fat.g, old(f.Now())) && ViewOk(f.fat.g, f.Now())
    ensures |outs| <= |ops| && IsTrace(states, ops[..|outs|], outs) && states[0] == old(FlatOf(f))
    ensures |outs| == |ops| ==> f.Valid() && f.sect != NO_SECTOR && FlatOf(f) == states[|ops|]
    ensures |outs| < |ops| ==>
      var s := states[|outs|];
      && ViewOk(f.fat.g, stop) && s == Flat(Bytes(f.fat.g, stop), s.size, stop.offset)
      && !CanDo(f.fat.g, stop, s.size, f.canRead, f.canWrite, ops[|outs|])
    ensures Confined(f.fat.g, old(f.Image()), old(f.chain), f.Image(), f.chain)
  {
    hide Table, Layout, Confined, RoomUpTo, FlatStep, ViewOk, File.Valid, File.Buffered, File.Now, CanDo, File.Image, File.Contents, Bytes, IsChain;
    f.ValidIsBuffered();
    f.NowIsOk();
    outs, states, stop := [], [FlatOf(f)], f.Now();
    ghost var g, v := f.fat.g, f.Now();
    Unchanged(g, v);
    for i := 0 to |ops|
      invariant f.Buffered() && f.Valid() && f.sect != NO_SECTOR
      invariant ViewOk(g, v) && ViewOk(g, f.Now()) && TableFits(g, v.image) && TableFits(g, f.Now().image)
      invariant Confined(g, v.image, v.chain, f.Now().image, f.Now().chain)
      invariant |outs| == i && IsTrace(states, ops[..i], outs) && states[0] == old(FlatOf(f)) && states[i] == FlatOf(f)
    {
      ghost var w := f.Now();
      f.NowIsOk();
      stop := w;
      var ok, out := Do(f, ops[i]);
      f.NowIsOk();
      ConfinedTwice(g, v, w, f.Now());
      if !ok {
        return;
      }
      TraceGoesOn(states, ops[..i], outs, ops[i], out, FlatOf(f));
      assert ops[..i + 1] == ops[..i] + [ops[i]];
      outs, states := outs + [out], states + [FlatOf(f)];
    }
    assert ops[..|ops|] == ops;
  }

  lemma TraceGoesOn(states: seq<Flat>, ops: seq<Op>, outs: seq<seq<byte>>, op: Op, out: seq<byte>, s: Flat)
    requires IsTrace(states, ops, outs) && FlatStep(states[|ops|], op, out, s)
    ensures IsTrace(states + [s], ops + [op], outs + [out])
  {
    hide FlatStep;
    forall i | 0 <= i < |ops| + 1
      ensures StepAt(states + [s], ops + [op], outs + [out], i)
    {
      assert i < |ops| ==> StepAt(states, ops, outs, i);
    }
  }

  lemma Unchanged(g: Geometry, v: View)
    requires ViewOk(g, v)
    ensures TableFits(g, v.image) && Confined(g, v.image, v.chain, v.image, v.chain)
  {
    ConfinedFromStart(g, v.image, v.chain);
  }

  lemma ConfinedTwice(g: Geometry, v: View, w: View, x: View)
    requires ViewOk(g, v) && ViewOk(g, w) && ViewOk(g, x)
    requires TableFits(g, w.image) && Confined(g, v.image, v.chain, w.image, w.chain) && Confined(g, w.image, w.chain, x.image, x.chain)
    ensures TableFits(g, v.image) && TableFits(g, x.image) && Confined(g, v.image, v.chain, x.image, x.chain)
  {
    hide Table, Layout, Grown, EntriesOk, IsChain;
    GrownTransitive(Table(g, v.image), v.chain, Table(g, w.image), w.chain, Table(g, x.image), x.chain);
    GrownFacts(Table(g, w.image), w.chain, Table(g, x.image), x.chain);
    assert forall c :: c in w.chain ==> c in x.chain;
  }
}
