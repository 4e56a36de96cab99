// A directory as a list of entries: what its records mean to the callers of dir_search, dir_add and
// remove_entries, over any sequence of additions and removals.
module FatNames {
  import opened Machine
  import opened FatDirectory

  /** An entry with a long name, or one that has only the short name of its record. */
  datatype Entry = Long(name: Name, slot: Slot) | Short(slot: Slot)

  /** A lookup of the name stops at the entry. */
  predicate Matches(e: Entry, name: Name) {
    match e
    case Long(n, _) => n == name
    case Short(s) => SfnName(s) == ShortName(name)
  }

  /** The entries from record k on, in order. */
  ghost function EntriesOf(d: seq<Slot>, k: nat): seq<Entry>
    requires WellFormed(d, k)
    decreases |d| - k
  {
    hide FragChars, FullFragment, IsFragment, Crc;
    if k >= |d| || IsLast(d[k]) then []
    else if IsFree(d[k]) then EntriesOf(d, k + 1)
    else if IsLfn(d[k]) then
      [Long(NameIn(d, k, SeqCount(d[k])), d[k + SeqCount(d[k])])] + EntriesOf(d, k + SeqCount(d[k]) + 1)
    else [Short(d[k])] + EntriesOf(d, k + 1)
  }

  /** The first entry from the k-th on that a lookup of the name stops at, or the number of entries if there is none. */
  function FirstFrom(es: seq<Entry>, k: nat, name: Name): (i: nat)
    requires k <= |es|
    ensures k <= i <= |es| && (i < |es| ==> Matches(es[i], name))
    ensures forall j :: k <= j < i ==> !Matches(es[j], name)
    decreases |es| - k
  {
    hide Matches;
    if k == |es| || Matches(es[k], name) then k else FirstFrom(es, k + 1, name)
  }

  function First(es: seq<Entry>, name: Name): (i: nat)
    ensures i <= |es| && (i < |es| ==> Matches(es[i], name))
    ensures forall j :: 0 <= j < i ==> !Matches(es[j], name)
  {
    FirstFrom(es, 0, name)
  }

  predicate Has(es: seq<Entry>, name: Name) { First(es, name) < |es| }

  function Without(es: seq<Entry>, i: nat): seq<Entry>
    requires i < |es|
  {
    es[..i] + es[i + 1..]
  }

  /** fs is es with x put in somewhere. */
  ghost predicate Inserted(es: seq<Entry>, fs: seq<Entry>, x: Entry) {
    exists i: nat :: InsertedAt(es, fs, x, i)
  }

  predicate InsertedAt(es: seq<Entry>, fs: seq<Entry>, x: Entry, i: nat) {
    i <= |es| && fs == es[..i] + [x] + es[i..]
  }

  /** The record behind the entry, or the unused record, at k. */
  function NextEntry(d: seq<Slot>, k: nat): (j: nat)
    requires k < |d|
    ensures k < j
  {
    if !IsFree(d[k]) && IsLfn(d[k]) then k + SeqCount(d[k]) + 1 else k + 1
  }

  /** The entry that begins at record k. */
  function HeadEntry(d: seq<Slot>, k: nat): Entry
    requires k < |d|
  {
    if IsLfn(d[k]) && k + SeqCount(d[k]) < |d| then Long(NameIn(d, k, SeqCount(d[k])), d[k + SeqCount(d[k])]) else Short(d[k])
  }

  function HeadList(d: seq<Slot>, k: nat): seq<Entry>
    requires k < |d|
  {
    if IsFree(d[k]) then [] else [HeadEntry(d, k)]
  }

  /** The entry at record k, and what follows it. */
  lemma OneStep(d: seq<Slot>, k: nat, name: Name)
    requires WellFormed(d, k) && k < |d| && !IsLast(d[k])
    ensures var j := NextEntry(d, k);
      && j <= |d| && WellFormed(d, j) && EntriesOf(d, k) == HeadList(d, k) + EntriesOf(d, j)
      && if !IsFree(d[k]) && Matches(HeadEntry(d, k), name) then Lookup(d, k, name) == At(k, j - 1) && d[j - 1] == HeadEntry(d, k).slot
         else Lookup(d, k, name) == Lookup(d, j, name)
  {
    hide NameIn, FragChars, HeadBit, SfnName, ShortName, LfnCrc, Crc, IsGroup;
    if !IsFree(d[k]) && IsLfn(d[k]) {
      GroupFits(d, k, SeqCount(d[k]));
    }
  }

  lemma GroupFits(d: seq<Slot>, k: nat, n: nat)
    requires IsGroup(d, k, n)
    ensures k + n < |d|
  {
  }

  /** The same records at k, and a directory in order behind them. */
  lemma SameStep(d: seq<Slot>, e: seq<Slot>, k: nat)
    requires WellFormed(d, k) && k < |d| && !IsLast(d[k])
    requires NextEntry(d, k) <= |e| && WellFormed(e, NextEntry(d, k)) && forall i :: k <= i < NextEntry(d, k) && i < |d| ==> e[i] == d[i]
    ensures WellFormed(e, k) && EntriesOf(e, k) == HeadList(d, k) + EntriesOf(e, NextEntry(d, k))
  {
    hide WellFormed, EntriesOf, NameIn, IsGroup, IsFree, IsLfn, IsLast, SeqCount;
    assert e[k] == d[k];
    if IsFree(d[k]) || !IsLfn(d[k]) {
      EntriesAtRecord(e, k);
    } else {
      SameGroupStep(d, e, k);
    }
  }

  lemma SameGroupStep(d: seq<Slot>, e: seq<Slot>, k: nat)
    requires WellFormed(d, k) && k < |d| && !IsFree(d[k]) && IsLfn(d[k])
    requires NextEntry(d, k) <= |e| && WellFormed(e, NextEntry(d, k)) && forall i :: k <= i < NextEntry(d, k) && i < |d| ==> e[i] == d[i]
    ensures WellFormed(e, k) && EntriesOf(e, k) == HeadList(d, k) + EntriesOf(e, NextEntry(d, k))
  {
    hide WellFormed, EntriesOf, NameIn, IsGroup, IsFree, IsLfn, SeqCount, NextEntry, HeadList, HeadEntry;
    var n := SeqCount(d[k]);
    GroupAt(d, k);
    GroupFits(d, k, n);
    LongEntry(d, k);
    assert e[k] == d[k] && e[k + n] == d[k + n];
    SameGroup(d, e, k, n);
    EntriesAtGroup(e, k, n);
  }

  lemma LongEntry(d: seq<Slot>, k: nat)
    requires k < |d| && !IsFree(d[k]) && IsLfn(d[k]) && k + SeqCount(d[k]) < |d|
    ensures NextEntry(d, k) == k + SeqCount(d[k]) + 1
    ensures HeadList(d, k) == [Long(NameIn(d, k, SeqCount(d[k])), d[k + SeqCount(d[k])])]
  {
    hide NameIn;
  }

  lemma GroupAt(d: seq<Slot>, k: nat)
    requires WellFormed(d, k) && k < |d| && !IsFree(d[k]) && IsLfn(d[k])
    ensures IsGroup(d, k, SeqCount(d[k]))
  {
    hide IsGroup;
  }

  lemma EntriesAtRecord(d: seq<Slot>, k: nat)
    requires k < |d| && !IsLast(d[k]) && (IsFree(d[k]) || !IsLfn(d[k])) && WellFormed(d, k + 1)
    ensures WellFormed(d, k) && EntriesOf(d, k) == (if IsFree(d[k]) then [] else [Short(d[k])]) + EntriesOf(d, k + 1)
  {
    hide IsGroup, NameIn;
  }

  lemma FirstCons(e: Entry, es: seq<Entry>, name: Name)
    ensures First([e] + es, name) == if Matches(e, name) then 0 else 1 + First(es, name)
  {
    hide Matches;
    var i, fs := First(es, name), [e] + es;
    assert forall j :: 0 < j < |fs| ==> fs[j] == es[j - 1];
    if !Matches(e, name) {
      assert forall j :: 0 <= j < 1 + i ==> !Matches(fs[j], name);
      assert i < |es| ==> Matches(fs[1 + i], name);
    }
  }

  lemma FirstOfNone(name: Name)
    ensures First([], name) == 0
  {
  }

  /** A lookup finds the first entry that matches, at its own record. */
  lemma {:induction false} LookupIsFirst(d: seq<Slot>, k: nat, name: Name)
    requires WellFormed(d, k)
    ensures var r, es, i := Lookup(d, k, name), EntriesOf(d, k), First(EntriesOf(d, k), name);
      if i < |es| then r.At? && r.pos < |d| && d[r.pos] == es[i].slot else r == NotFound
    decreases |d| - k
  {
    hide WellFormed, EntriesOf, Lookup, First, NextEntry, HeadEntry, IsFree, IsLast, Matches;
    if k < |d| && !IsLast(d[k]) {
      var j := NextEntry(d, k);
      OneStep(d, k, name);
      LookupIsFirst(d, j, name);
      if !IsFree(d[k]) {
        FirstCons(HeadEntry(d, k), EntriesOf(d, j), name);
      } else {
        assert [] + EntriesOf(d, j) == EntriesOf(d, j);
      }
    } else {
      LookupAtEnd(d, k, name);
      NoEntries(d, k);
      FirstOfNone(name);
    }
  }

  /** Only the records from k on matter. */
  lemma {:induction false} EntriesSuffix(d: seq<Slot>, e: seq<Slot>, k: nat)
    requires WellFormed(d, k) && SameFrom(d, e, k)
    ensures WellFormed(e, k) && EntriesOf(e, k) == EntriesOf(d, k)
    decreases |d| - k
  {
    EntriesGrown(d, e, k);
  }

  /** End marks behind the records change nothing. */
  lemma {:induction false} EntriesGrown(d: seq<Slot>, e: seq<Slot>, k: nat)
    requires WellFormed(d, k) && |d| <= |e| && (forall i :: k <= i < |d| ==> e[i] == d[i]) && forall i :: |d| <= i < |e| ==> IsLast(e[i])
    ensures WellFormed(e, k) && EntriesOf(e, k) == EntriesOf(d, k)
    decreases |d| - k
  {
    hide WellFormed, EntriesOf, NextEntry, HeadEntry, IsFree, IsLast;
    if k < |d| && !IsLast(d[k]) {
      OneStep(d, k, []);
      EntriesGrown(d, e, NextEntry(d, k));
      SameStep(d, e, k);
    } else {
      NoEntries(d, k);
      NoEntries(e, k);
    }
  }

  lemma {:induction false} EntriesSkipHoles(d: seq<Slot>, k: nat, n: nat)
    requires Holes(d, k, n)
    ensures WellFormed(d, k) <==> WellFormed(d, k + n)
    ensures WellFormed(d, k) ==> EntriesOf(d, k) == EntriesOf(d, k + n)
    decreases n
  {
    hide IsGroup, NameIn;
    if n > 0 {
      EntriesSkipHoles(d, k + 1, n - 1);
    }
  }

  lemma EntriesAtGroup(d: seq<Slot>, k: nat, n: nat)
    requires k + n < |d| && SeqCount(d[k]) == n && !IsFree(d[k]) && IsLfn(d[k]) && IsGroup(d, k, n) && WellFormed(d, k + n + 1)
    ensures WellFormed(d, k) && EntriesOf(d, k) == [Long(NameIn(d, k, n), d[k + n])] + EntriesOf(d, k + n + 1)
  {
    hide NameIn, IsGroup, FragChars, HeadBit, SfnName, ShortName, LfnCrc, Crc;
    GroupFits(d, k, n);
  }

  lemma NoEntries(d: seq<Slot>, k: nat)
    requires k >= |d| || IsLast(d[k])
    ensures WellFormed(d, k) && EntriesOf(d, k) == []
  {
  }

  lemma EntryIs(d: seq<Slot>, e: seq<Slot>, start: nat, name: Name, sfn: Slot, eod: bool)
    requires 1 <= |name| <= 255 && Added(d, e, start, name, sfn, eod)
    ensures start + FragCount(name) < |e| && e[start + FragCount(name)] == sfn && start < |d| == |e|
    ensures NoEndBefore(d, start) && IsFree(d[start]) && forall i :: 0 <= i < start ==> e[i] == d[i]
  {
    RunStartsFree(d, start, FragCount(name) + 1, eod);
  }

  /** At the run of a new entry: the old entries go on behind it. */
  lemma EntriesAtRun(d: seq<Slot>, e: seq<Slot>, start: nat, name: Name, sfn: Slot, eod: bool)
    requires 1 <= |name| <= 255 && 0 !in name && IsSfnOf(sfn, name) && Added(d, e, start, name, sfn, eod)
    requires WellFormed(d, start)
    ensures WellFormed(e, start) && EntriesOf(e, start) == [Long(name, sfn)] + EntriesOf(d, start)
  {
    hide IsGroup, NameIn, FragCount, IsSfnOf, HoldsEntry, WellFormed, EntriesOf;
    var n := FragCount(name);
    NewEntryIsGroup(e, start, name, sfn);
    EntryIs(d, e, start, name, sfn, eod);
    if eod {
      var l :| start <= l < start + n + 1 && l < |d| && IsLast(d[l]) && Holes(d, start, l - start);
      EntriesSkipHoles(d, start, l - start);
      NoEntries(d, l);
      NoEntries(e, start + n + 1);
    } else {
      EntriesSkipHoles(d, start, n + 1);
      EntriesSuffix(d, e, start + n + 1);
    }
    EntriesAtGroup(e, start, n);
  }

  /** dir_add puts one entry into the list and leaves the others as they are. */
  lemma {:induction false} EntriesAdded(d: seq<Slot>, e: seq<Slot>, k: nat, start: nat, name: Name, sfn: Slot, eod: bool)
    requires 1 <= |name| <= 255 && 0 !in name && IsSfnOf(sfn, name) && Added(d, e, start, name, sfn, eod)
    requires WellFormed(d, k) && k <= start
    ensures WellFormed(e, k) && Inserted(EntriesOf(d, k), EntriesOf(e, k), Long(name, sfn))
    decreases start - k
  {
    hide FragCount, IsSfnOf, Added, WellFormed, EntriesOf, NextEntry, HeadList, Inserted, Lookup;
    EntryIs(d, e, start, name, sfn, eod);
    var es, x := EntriesOf(d, k), Long(name, sfn);
    if k == start {
      EntriesAtRun(d, e, start, name, sfn, eod);
      InsertedInFront(es, x);
    } else {
      StepsBefore(d, k, start);
      var j := NextEntry(d, k);
      OneStep(d, k, name);
      EntriesAdded(d, e, j, start, name, sfn, eod);
      SameStep(d, e, k);
      InsertedBehind(EntriesOf(d, j), EntriesOf(e, j), x, HeadList(d, k));
    }
  }

  /** The entry at k ends in front of an unused record behind it. */
  lemma StepsBefore(d: seq<Slot>, k: nat, start: nat)
    requires WellFormed(d, k) && k < start < |d| && IsFree(d[start]) && NoEndBefore(d, start)
    ensures !IsLast(d[k]) && NextEntry(d, k) <= start
  {
    hide IsGroup;
    if !IsFree(d[k]) && IsLfn(d[k]) {
      GroupAvoids(d, k, SeqCount(d[k]), start);
    }
  }

  lemma InsertedInFront(es: seq<Entry>, x: Entry)
    ensures Inserted(es, [x] + es, x)
  {
    assert InsertedAt(es, [x] + es, x, 0);
  }

  lemma InsertedBehind(es: seq<Entry>, fs: seq<Entry>, x: Entry, front: seq<Entry>)
    requires Inserted(es, fs, x)
    ensures Inserted(front + es, front + fs, x)
  {
    var i: nat :| InsertedAt(es, fs, x, i);
    assert (front + es)[..|front| + i] == front + es[..i] && (front + es)[|front| + i..] == es[i..];
    assert InsertedAt(front + es, front + fs, x, |front| + i);
  }

  lemma ClearedHoles(d: seq<Slot>, e: seq<Slot>, first: nat, pos: nat)
    requires Cleared(d, e, first, pos)
    ensures first <= pos < |d| && Holes(e, first, pos + 1 - first) && SameFrom(d, e, pos + 1)
    ensures forall i :: 0 <= i < first ==> e[i] == d[i]
  {
  }

  /** remove_entries takes the entry that the lookup has found out of the list and leaves the others as they are. */
  lemma {:induction false} EntriesCleared(d: seq<Slot>, e: seq<Slot>, k: nat, first: nat, pos: nat, name: Name)
    requires WellFormed(d, k) && Lookup(d, k, name) == At(first, pos) && Cleared(d, e, first, pos)
    ensures WellFormed(e, k) && Has(EntriesOf(d, k), name)
    ensures EntriesOf(e, k) == Without(EntriesOf(d, k), First(EntriesOf(d, k), name))
    decreases |d| - k
  {
    hide WellFormed, EntriesOf, Lookup, Cleared, First, Without, NextEntry, HeadEntry, IsFree, IsLast, Matches, Has;
    LookupIsFirst(d, k, name);
    FoundIsAhead(d, k, name);
    ClearedHoles(d, e, first, pos);
    if k >= |d| || IsLast(d[k]) {
      LookupAtEnd(d, k, name);
    }
    OneStep(d, k, name);
    var j, es := NextEntry(d, k), EntriesOf(d, k);
    FirstCons(HeadEntry(d, k), EntriesOf(d, j), name);
    if !IsFree(d[k]) && Matches(HeadEntry(d, k), name) {
      ClearedHere(d, e, first, pos);
      TailOf(HeadEntry(d, k), EntriesOf(d, j));
    } else {
      FoundIsAhead(d, j, name);
      EntriesCleared(d, e, j, first, pos, name);
      SameStep(d, e, k);
      if !IsFree(d[k]) {
        WithoutCons(HeadEntry(d, k), EntriesOf(d, j), First(EntriesOf(d, j), name));
      } else {
        assert [] + EntriesOf(d, j) == EntriesOf(d, j) && [] + EntriesOf(e, j) == EntriesOf(e, j);
      }
    }
    HasFirst(es, name);
  }

  lemma HasFirst(es: seq<Entry>, name: Name)
    ensures Has(es, name) <==> First(es, name) < |es|
  {
  }

  lemma TailOf(e: Entry, es: seq<Entry>)
    ensures Without([e] + es, 0) == es
  {
  }

  lemma ClearedHere(d: seq<Slot>, e: seq<Slot>, first: nat, pos: nat)
    requires Cleared(d, e, first, pos) && WellFormed(d, pos + 1)
    ensures WellFormed(e, first) && EntriesOf(e, first) == EntriesOf(d, pos + 1)
  {
    hide WellFormed, EntriesOf, Cleared;
    ClearedHoles(d, e, first, pos);
    EntriesSuffix(d, e, pos + 1);
    EntriesSkipHoles(e, first, pos + 1 - first);
  }

  lemma WithoutCons(e: Entry, es: seq<Entry>, i: nat)
    requires i < |es|
    ensures Without([e] + es, 1 + i) == [e] + Without(es, i)
  {
    assert ([e] + es)[..1 + i] == [e] + es[..i] && ([e] + es)[1 + i + 1..] == es[i + 1..];
  }

  // ---- Names

  /** No name is found at both entries. */
  ghost predicate NoneInCommon(e: Entry, f: Entry) {
    forall name :: !(Matches(e, name) && Matches(f, name))
  }

  /** No name is found at two entries. */
  ghost predicate Unambiguous(es: seq<Entry>) {
    forall i, j :: 0 <= i < j < |es| ==> NoneInCommon(es[i], es[j])
  }

  lemma HasIff(es: seq<Entry>, name: Name)
    ensures Has(es, name) <==> exists i :: 0 <= i < |es| && Matches(es[i], name)
  {
    hide Matches;
    if exists i :: 0 <= i < |es| && Matches(es[i], name) {
      var i :| 0 <= i < |es| && Matches(es[i], name);
    }
  }

  lemma InsertedIndex(es: seq<Entry>, fs: seq<Entry>, x: Entry, i: nat, j: nat)
    requires InsertedAt(es, fs, x, i) && j < |fs|
    ensures fs[j] == if j < i then es[j] else if j == i then x else es[j - 1]
    ensures |fs| == |es| + 1
  {
  }

  /** What is found after an insertion: what was found before, and whatever stops at the new entry. */
  lemma HasInserted(es: seq<Entry>, fs: seq<Entry>, x: Entry, name: Name)
    requires Inserted(es, fs, x)
    ensures Has(fs, name) <==> Has(es, name) || Matches(x, name)
  {
    hide Matches, InsertedAt, First;
    var i: nat :| InsertedAt(es, fs, x, i);
    HasIff(es, name);
    HasIff(fs, name);
    InsertedBounds(es, fs, x, i);
    if Has(fs, name) {
      var j :| 0 <= j < |fs| && Matches(fs[j], name);
      InsertedIndex(es, fs, x, i, j);
    }
    if Has(es, name) {
      var j :| 0 <= j < |es| && Matches(es[j], name);
      InsertedIndex(es, fs, x, i, if j < i then j else j + 1);
    }
    InsertedIndex(es, fs, x, i, i);
  }

  lemma InsertedBounds(es: seq<Entry>, fs: seq<Entry>, x: Entry, i: nat)
    requires InsertedAt(es, fs, x, i)
    ensures i <= |es| && |fs| == |es| + 1
  {
  }

  lemma UnambiguousInserted(es: seq<Entry>, fs: seq<Entry>, name: Name, slot: Slot)
    requires Unambiguous(es) && !Has(es, name) && Inserted(es, fs, Long(name, slot))
    ensures Unambiguous(fs)
  {
    hide InsertedAt, First;
    var x := Long(name, slot);
    var i: nat :| InsertedAt(es, fs, x, i);
    HasIff(es, name);
    InsertedBounds(es, fs, x, i);
    forall j, k | 0 <= j < k < |fs|
      ensures NoneInCommon(fs[j], fs[k])
    {
      InsertedIndex(es, fs, x, i, j);
      InsertedIndex(es, fs, x, i, k);
    }
  }

  lemma UnambiguousWithout(es: seq<Entry>, i: nat)
    requires Unambiguous(es) && i < |es|
    ensures Unambiguous(Without(es, i))
  {
    hide NoneInCommon;
    var fs := Without(es, i);
    forall j, k | 0 <= j < k < |fs|
      ensures NoneInCommon(fs[j], fs[k])
    {
      assert fs[j] == es[if j < i then j else j + 1] && fs[k] == es[if k < i then k else k + 1];
    }
  }

  /** What is found without entry i: whatever stops at another one. */
  lemma HasWithout(es: seq<Entry>, i: nat, name: Name)
    requires i < |es|
    ensures Has(Without(es, i), name) <==> exists j :: 0 <= j < |es| && j != i && Matches(es[j], name)
  {
    hide Matches, First;
    var fs := Without(es, i);
    HasIff(fs, name);
    if Has(fs, name) {
      var j :| 0 <= j < |fs| && Matches(fs[j], name);
      assert fs[j] == es[if j < i then j else j + 1];
    }
    if exists j :: 0 <= j < |es| && j != i && Matches(es[j], name) {
      var j :| 0 <= j < |es| && j != i && Matches(es[j], name);
      assert es[j] == fs[if j < i then j else j - 1];
    }
  }

  /** After a removal the name is gone exactly if no other entry has it. */
  lemma GoneIff(es: seq<Entry>, name: Name)
    requires Has(es, name)
    ensures !Has(Without(es, First(es, name)), name) <==> forall j :: First(es, name) < j < |es| ==> !Matches(es[j], name)
  {
    hide Matches, Has;
    assert First(es, name) < |es| by {
      HasIff(es, name);
    }
    HasWithout(es, First(es, name), name);
  }

  // ---- Whole runs

  datatype Directory = Directory(es: seq<Entry>)

  /** What callers do to a directory: make sure that a name is there, or that it is not. */
  datatype Change = Ensure(name: Name, slot: Slot) | Discard(name: Name)

  /** What a path can name: not empty, and without a NUL. */
  predicate Nameable(name: Name) {
    1 <= |name| && 0 !in name
  }

  /** A change and its effect; one that failed has had none. */
  ghost predicate Changed(es: seq<Entry>, c: Change, ok: bool, fs: seq<Entry>) {
    if !ok then fs == es
    else match c
      case Ensure(name, slot) => if Has(es, name) then fs == es else Inserted(es, fs, Long(name, slot))
      case Discard(name) => Has(es, name) && fs == Without(es, First(es, name))
  }

  /** The change is about the name: it is the one made sure of, or the entry removed is the one it was found at. */
  predicate Touches(es: seq<Entry>, c: Change, name: Name) {
    match c
    case Ensure(n, _) => n == name
    case Discard(n) => Has(es, n) && Matches(es[First(es, n)], name)
  }

  lemma OneChange(es: seq<Entry>, c: Change, ok: bool, fs: seq<Entry>, name: Name)
    requires Unambiguous(es) && Changed(es, c, ok, fs)
    ensures Unambiguous(fs)
    ensures Has(fs, name) <==> if ok && Touches(es, c, name) then c.Ensure? else Has(es, name)
  {
    hide Matches, First, Inserted, Without, NoneInCommon;
    if ok && c.Ensure? && !Has(es, c.name) {
      UnambiguousInserted(es, fs, c.name, c.slot);
      HasInserted(es, fs, Long(c.name, c.slot), name);
      LongMatches(c.name, c.slot, name);
    } else if ok && c.Discard? {
      var i := First(es, c.name);
      UnambiguousWithout(es, i);
      HasWithout(es, i, name);
      HasIff(es, name);
      if Matches(es[i], name) {
        AtMostOne(es, i, name);
      }
    }
  }

  lemma LongMatches(n: Name, slot: Slot, name: Name)
    ensures Matches(Long(n, slot), name) <==> n == name
  {
  }

  lemma AtMostOne(es: seq<Entry>, i: nat, name: Name)
    requires Unambiguous(es) && i < |es| && Matches(es[i], name)
    ensures forall j :: 0 <= j < |es| && j != i ==> !Matches(es[j], name)
  {
    hide Matches;
    forall j | 0 <= j < |es| && j != i
      ensures !Matches(es[j], name)
    {
      assert if j < i then NoneInCommon(es[j], es[i]) else NoneInCommon(es[i], es[j]);
    }
  }

  ghost predicate Trace(states: seq<Directory>, cs: seq<Change>, oks: seq<bool>) {
    && |states| == |cs| + 1 && |oks| == |cs|
    && forall i :: 0 <= i < |cs| ==> ChangedAt(states, cs, oks, i)
  }

  ghost predicate ChangedAt(states: seq<Directory>, cs: seq<Change>, oks: seq<bool>, i: nat)
    requires |states| == |cs| + 1 && |oks| == |cs|
  {
    i < |cs| && Changed(states[i].es, cs[i], oks[i], states[i + 1].es)
  }

  predicate TouchedAt(states: seq<Directory>, cs: seq<Change>, oks: seq<bool>, name: Name, i: nat)
    requires |states| == |cs| + 1 && |oks| == |cs|
  {
    i < |cs| && oks[i] && Touches(states[i].es, cs[i], name)
  }

  /** The last of the first n changes that was about the name; -1 if none was. */
  function LastTouch(states: seq<Directory>, cs: seq<Change>, oks: seq<bool>, name: Name, n: nat): (i: int)
    requires |states| == |cs| + 1 && |oks| == |cs| && n <= |cs|
    ensures -1 <= i < n && (i >= 0 ==> TouchedAt(states, cs, oks, name, i))
    ensures forall j :: i < j < n ==> !TouchedAt(states, cs, oks, name, j)
  {
    if n == 0 then -1
    else if TouchedAt(states, cs, oks, name, n - 1) then n - 1
    else LastTouch(states, cs, oks, name, n - 1)
  }

  /** Over any run, a name is found exactly if the last change about it put it there, or none was and it was there at the start. */
  lemma {:induction false} LastChangeDecides(states: seq<Directory>, cs: seq<Change>, oks: seq<bool>, name: Name, n: nat)
    requires Trace(states, cs, oks) && Unambiguous(states[0].es) && n <= |cs|
    ensures Unambiguous(states[n].es)
    ensures var i := LastTouch(states, cs, oks, name, n);
      Has(states[n].es, name) <==> if i >= 0 then cs[i].Ensure? else Has(states[0].es, name)
    decreases n
  {
    hide Changed, Touches, Unambiguous, Has;
    if n > 0 {
      LastChangeDecides(states, cs, oks, name, n - 1);
      assert ChangedAt(states, cs, oks, n - 1);
      OneChange(states[n - 1].es, cs[n - 1], oks[n - 1], states[n].es, name);
    }
  }

  // ---- A new directory

  /** The short name of the entry for the directory itself, or for its parent. */
  function DotName(dots: nat): (r: seq<byte>)
    requires 1 <= dots <= 2
    ensures |r| == 11
  {
    seq(11, i requires 0 <= i < 11 => if i < dots then DOT else SFN_PAD)
  }

  /** The records of a directory as it is made: itself, its parent, and nothing else. */
  ghost predicate IsNew(d: seq<Slot>, clust: nat, parent: nat, time: nat, date: nat) {
    && 2 < |d|
    && d[0] == SfnSlot(DotName(1), 0x10, clust, time, date) && d[1] == SfnSlot(DotName(2), 0x10, parent, time, date)
    && forall i :: 2 <= i < |d| ==> IsLast(d[i])
  }

  /** No name is found at either of the two entries: a short name has no dot. */
  lemma DotsMatchNothing(dots: nat, clust: nat, time: nat, date: nat, name: Name)
    requires 1 <= dots <= 2
    ensures var s := SfnSlot(DotName(dots), 0x10, clust, time, date);
      s[0] == DOT && s[11] == 0x10 && !IsFree(s) && !IsLfn(s) && !Matches(Short(s), name)
  {
    hide ShortName;
    var s := SfnSlot(DotName(dots), 0x10, clust, time, date);
    assert SfnName(s)[0] == DOT;
    NoDotInFront(name);
  }

  lemma NoDotInFront(name: Name)
    ensures ShortName(name)[0] != DOT
  {
    var n := BaseEnd(name, 0);
    assert DOT !in SPECIALS;
    assert Converted(name, 0, n, 8)[0] == if n == 0 then SFN_PAD else SfnChar(name[0]);
  }

  /** A new directory is well formed and holds no name, so that the first creation in it succeeds in the lookup. */
  lemma NewIsEmpty(d: seq<Slot>, clust: nat, parent: nat, time: nat, date: nat, name: Name)
    requires IsNew(d, clust, parent, time, date)
    ensures WellFormed(d, 0) && EntriesOf(d, 0) == [Short(d[0]), Short(d[1])]
    ensures Unambiguous(EntriesOf(d, 0)) && !Has(EntriesOf(d, 0), name)
  {
    hide Matches, SfnSlot, IsGroup;
    NoEntries(d, 2);
    forall n: Name
      ensures d[0][0] == DOT && !IsFree(d[0]) && !IsLfn(d[0]) && !Matches(Short(d[0]), n)
      ensures d[1][0] == DOT && !IsFree(d[1]) && !IsLfn(d[1]) && !Matches(Short(d[1]), n)
    {
      DotsMatchNothing(1, clust, time, date, n);
      DotsMatchNothing(2, parent, time, date, n);
    }
    DotsMatchNothing(1, clust, time, date, name);
    DotsMatchNothing(2, parent, time, date, name);
    assert WellFormed(d, 1) && EntriesOf(d, 1) == [Short(d[1])] + EntriesOf(d, 2);
    assert WellFormed(d, 0) && EntriesOf(d, 0) == [Short(d[0])] + EntriesOf(d, 1);
    HasIff(EntriesOf(d, 0), name);
  }
}
