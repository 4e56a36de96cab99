// The 32-byte records of a directory: long-name fragments, their short entry, and what
// looking up, adding and removing a name does to the sequence of records.
module FatDirectory {
  import opened Machine

  type Slot = s: seq<byte> | |s| == 32 witness seq(32, _ => 0)
  type Name = seq<byte>

  const ATTR_LFN: byte := 0x0f
  const SFN_FREE: byte := 0xe5
  const SFN_LAST: byte := 0x00
  const SFN_PAD: byte := 0x20

  // ---- Single records

  predicate IsLast(s: Slot) { s[0] == SFN_LAST }
  predicate IsFree(s: Slot) { s[0] == SFN_LAST || s[0] == SFN_FREE }
  predicate IsLfn(s: Slot) { s[11] == ATTR_LFN }

  function SfnName(s: Slot): seq<byte> { s[..11] }
  function LfnCrc(s: Slot): byte { s[13] }
  predicate HeadBit(s: Slot) { s[0] / 0x40 % 2 == 1 }
  function SeqCount(s: Slot): nat { s[0] as int % 0x20 }

  /** The checksum that ties the fragments of a long name to their short entry. */
  function Crc(name: seq<byte>): byte {
    if name == [] then 0
    else
      var sum := Crc(name[..|name| - 1]);
      (sum % 2 * 0x80 + sum / 2 + name[|name| - 1]) % 0x100
  }

  /** Where the i-th character of a fragment lies in its record. */
  function LfnIndex(i: nat): (k: nat)
    requires i < 13
    ensures 1 <= k <= 30 && k != 11 && k + 1 != 11 && k != 12 && k + 1 != 12 && k != 13 && k + 1 != 13 && k != 26 && k + 1 != 26 && k != 27
  {
    if i < 5 then 1 + 2 * i else if i < 11 then 4 + 2 * i else 6 + 2 * i
  }

  /** The characters of a fragment from the i-th on, up to the first zero. */
  function FragChars(s: Slot, i: nat): (c: seq<byte>)
    requires i <= 13
    ensures |c| <= 13 - i
    decreases 13 - i
  {
    if i == 13 || s[LfnIndex(i)] == 0 then [] else [s[LfnIndex(i)]] + FragChars(s, i + 1)
  }

  // ---- Short names

  const DOT: byte := 0x2e
  const SPECIALS: seq<byte> := [0x21, 0x23, 0x24, 0x25, 0x26, 0x27, 0x28, 0x29, 0x2d, 0x40, 0x5e, 0x5f, 0x60, 0x7b, 0x7d, 0x7e, 0x20]

  function ToUpper(c: byte): byte {
    if 0x61 <= c <= 0x7a then c - 0x20 else c
  }

  /** A character as it may stand in a short name; never one that marks a record as free. */
  function SfnChar(c: byte): (r: byte)
    ensures r != SFN_LAST && r != SFN_FREE
  {
    var u := ToUpper(c);
    if 0x41 <= u <= 0x5a || u in SPECIALS then u else 0x5f
  }

  /** The characters of name from i to n, converted, padded with blanks to w. */
  function Converted(name: Name, i: nat, n: nat, w: nat): (r: seq<byte>)
    requires i <= n <= |name| && n - i <= w
    ensures |r| == w && (0 < w ==> r[0] != SFN_LAST && r[0] != SFN_FREE)
    decreases w
  {
    if w == 0 then []
    else if i == n then [SFN_PAD] + Converted(name, i, n, w - 1)
    else [SfnChar(name[i])] + Converted(name, i + 1, n, w - 1)
  }

  /** The end of the part before the dot, at most 8 characters long. */
  function BaseEnd(name: Name, i: nat): (n: nat)
    requires i <= |name| && i <= 8
    ensures i <= n <= |name| && n <= 8
    decreases 8 - i
  {
    if i < |name| && i < 8 && name[i] != DOT then BaseEnd(name, i + 1) else i
  }

  function AfterDot(name: Name, i: nat): (n: nat)
    requires i <= |name|
    ensures i <= n <= |name|
    decreases |name| - i
  {
    if i == |name| then i else if name[i] == DOT then i + 1 else AfterDot(name, i + 1)
  }

  /** The 11 bytes of put_sfn_name. */
  function ShortName(name: Name): (r: seq<byte>)
    ensures |r| == 11 && r[0] != SFN_LAST && r[0] != SFN_FREE
  {
    var n := BaseEnd(name, 0);
    var e := AfterDot(name, n);
    Converted(name, 0, n, 8) + Converted(name, e, if e + 3 < |name| then e + 3 else |name|, 3)
  }

  // ---- Reading a name back from its fragments

  datatype Outcome = At(first: nat, pos: nat) | NotFound | Malformed

  /** The global name buffer and length, the position after the fragments, or an error. */
  datatype Parsed = Parsed(buf: seq<byte>, len: nat, next: nat) | ParseEof | ParseBroken

  function Store(buf: seq<byte>, at: nat, c: seq<byte>): (r: seq<byte>)
    requires at + |c| <= |buf|
    ensures |r| == |buf|
  {
    buf[..at] + c + buf[at + |c|..]
  }

  /** One more character goes to the buffer. */
  lemma StoreMore(s: Slot, i: nat, was: seq<byte>, at: nat, c: seq<byte>)
    requires c == FragChars(s, 0) && i < |c| <= 13 && at + 13 <= |was| && FragChars(s, i) == c[i..] && i < 13 && s[LfnIndex(i)] != 0
    ensures FragChars(s, i + 1) == c[i + 1..]
    ensures Store(was, at, c[..i])[at + i := s[LfnIndex(i)]] == Store(was, at, c[..i + 1])
  {
    hide LfnIndex, Store;
    assert FragChars(s, i)[0] == c[i];
    StoreOne(was, at, c, i);
  }

  lemma StoreOne(was: seq<byte>, at: nat, c: seq<byte>, i: nat)
    requires i < |c| && at + |c| <= |was|
    ensures Store(was, at, c[..i])[at + i := c[i]] == Store(was, at, c[..i + 1])
  {
    assert c[..i + 1] == c[..i] + [c[i]];
  }

  lemma StoreEnds(s: Slot, i: nat, c: seq<byte>)
    requires i <= 13 && i <= |c| && FragChars(s, i) == c[i..]
    ensures i == 13 || s[LfnIndex(i)] == 0 ==> i == |c|
    ensures i < 13 && s[LfnIndex(i)] != 0 ==> i < |c|
  {
    hide LfnIndex;
    if i < 13 && s[LfnIndex(i)] != 0 {
      assert FragChars(s, i)[0] == s[LfnIndex(i)];
    }
  }

  lemma StoreNone(buf: seq<byte>, at: nat)
    requires at <= |buf|
    ensures Store(buf, at, []) == buf
  {
  }

  /** The loop of parse_lfn_name: cnt fragments left, the next one in record k. */
  function ParseFrags(d: seq<Slot>, k: nat, cnt: nat, crc: byte, buf: seq<byte>, len: nat): (r: Parsed)
    requires k < |d| && cnt <= 20 && |buf| == 512
    ensures r.Parsed? ==> |r.buf| == 512 && r.next < |d| && r.next == k + cnt
    decreases cnt
  {
    if cnt == 0 then Parsed(buf, len, k)
    else if !IsLfn(d[k]) || LfnCrc(d[k]) != crc then ParseBroken
    else
      var c := FragChars(d[k], 0);
      if k + 1 == |d| then ParseEof
      else ParseFrags(d, k + 1, cnt - 1, crc, Store(buf, 13 * (cnt - 1), c), len + |c|)
  }

  /** One turn of the loop. */
  lemma ParseStep(d: seq<Slot>, k: nat, cnt: nat, crc: byte, buf: seq<byte>, len: nat)
    requires k < |d| && 0 < cnt <= 20 && |buf| == 512
    ensures var c := FragChars(d[k], 0);
      ParseFrags(d, k, cnt, crc, buf, len) ==
        if d[k][11] != ATTR_LFN || d[k][13] != crc then ParseBroken
        else if k + 1 == |d| then ParseEof
        else ParseFrags(d, k + 1, cnt - 1, crc, Store(buf, 13 * (cnt - 1), c), len + |c|)
  {
    hide FragChars, Store;
  }

  lemma ParseDone(d: seq<Slot>, k: nat, crc: byte, buf: seq<byte>, len: nat)
    requires k < |d| && |buf| == 512
    ensures ParseFrags(d, k, 0, crc, buf, len) == Parsed(buf, len, k)
  {
  }

  function ParseName(d: seq<Slot>, k: nat, buf: seq<byte>): (r: Parsed)
    requires k < |d| && |buf| == 512
    ensures r.Parsed? ==> |r.buf| == 512 && k <= r.next < |d| && r.len <= 255
  {
    if !HeadBit(d[k]) || SeqCount(d[k]) > 20 then ParseBroken
    else
      var r := ParseFrags(d, k, SeqCount(d[k]), LfnCrc(d[k]), buf, 0);
      if r.Parsed? && r.len > 255 then ParseBroken else r
  }

  /** dir_search from record k on; buf is the name buffer, whose old contents a malformed name can expose. */
  function Search(d: seq<Slot>, k: nat, name: Name, buf: seq<byte>): Outcome
    requires |buf| == 512
    decreases |d| - k
  {
    if k >= |d| || IsLast(d[k]) then NotFound
    else if IsFree(d[k]) then Search(d, k + 1, name, buf)
    else if IsLfn(d[k]) then
      match ParseName(d, k, buf)
      case ParseEof => NotFound
      case ParseBroken => Malformed
      case Parsed(b, n, j) =>
        if IsFree(d[j]) || IsLfn(d[j]) || LfnCrc(d[k]) != Crc(SfnName(d[j])) then Malformed
        else if b[..n] == name then At(k, j)
        else Search(d, j + 1, name, b)
    else if SfnName(d[k]) == ShortName(name) then At(k, k)
    else Search(d, k + 1, name, buf)
  }

  // ---- Well-formed directories

  /** Records k to k + n hold a long name: n full fragments, the topmost may be short, and the short entry. */
  ghost predicate IsGroup(d: seq<Slot>, k: nat, n: nat) {
    && 1 <= n <= 20 && k + n < |d|
    && HeadBit(d[k]) && SeqCount(d[k]) == n
    && (forall i :: k <= i < k + n ==> IsFragment(d, i, LfnCrc(d[k])))
    && (forall i :: k < i < k + n ==> FullFragment(d, i))
    && !IsFree(d[k + n]) && !IsLfn(d[k + n]) && LfnCrc(d[k]) == Crc(SfnName(d[k + n]))
    && |NameIn(d, k, n)| <= 255
  }

  predicate IsFragment(d: seq<Slot>, i: nat, crc: byte) {
    i < |d| && !IsFree(d[i]) && IsLfn(d[i]) && LfnCrc(d[i]) == crc
  }

  predicate FullFragment(d: seq<Slot>, i: nat) {
    i < |d| && |FragChars(d[i], 0)| == 13
  }

  /** The characters of the n fragments from record k on; the lowest-numbered fragment comes last. */
  function NameIn(d: seq<Slot>, k: nat, n: nat): Name
    requires k + n <= |d|
    decreases n
  {
    if n == 0 then [] else NameIn(d, k + 1, n - 1) + FragChars(d[k], 0)
  }

  /** From record k on the directory is a sequence of free records, short entries and long-name groups. */
  ghost predicate WellFormed(d: seq<Slot>, k: nat)
    decreases |d| - k
  {
    k >= |d| || IsLast(d[k]) ||
    if IsFree(d[k]) then WellFormed(d, k + 1)
    else if IsLfn(d[k]) then IsGroup(d, k, SeqCount(d[k])) && WellFormed(d, k + SeqCount(d[k]) + 1)
    else WellFormed(d, k + 1)
  }

  /** The meaning of a lookup: the first group with that name, or short-only entry with that short name. */
  ghost function Lookup(d: seq<Slot>, k: nat, name: Name): Outcome
    requires WellFormed(d, k)
    decreases |d| - k
  {
    hide FragChars, FullFragment, IsFragment, ShortName, Crc;
    if k >= |d| || IsLast(d[k]) then NotFound
    else if IsFree(d[k]) then Lookup(d, k + 1, name)
    else if IsLfn(d[k]) then
      var n := SeqCount(d[k]);
      if NameIn(d, k, n) == name then At(k, k + n) else Lookup(d, k + n + 1, name)
    else if SfnName(d[k]) == ShortName(name) then At(k, k)
    else Lookup(d, k + 1, name)
  }

  lemma StoreInFront(buf: seq<byte>, at: nat, c: seq<byte>, rest: seq<byte>)
    requires at + |c| + |rest| <= |buf| && (rest == [] || buf[at + |c|..at + |c| + |rest|] == rest)
    ensures Store(buf, at, c)[at..at + |c| + |rest|] == c + rest
  {
  }

  /** Parsing a group fills the buffer with its name, whatever the buffer held before. */
  lemma {:induction false} ParseFragsOfGroup(d: seq<Slot>, k: nat, cnt: nat, crc: byte, buf: seq<byte>, len: nat, rest: Name)
    requires cnt <= 20 && k + cnt < |d| && |buf| == 512
    requires forall i :: k <= i < k + cnt ==> IsFragment(d, i, crc)
    requires forall i :: k <= i < k + cnt ==> (rest == [] && i == k) || FullFragment(d, i)
    requires |rest| == len && 13 * cnt + len <= 512 && buf[13 * cnt..13 * cnt + len] == rest
    ensures var r := ParseFrags(d, k, cnt, crc, buf, len);
      && r.Parsed? && r.next == k + cnt
      && r.len == |NameIn(d, k, cnt)| + len && r.len <= 512 && r.buf[..r.len] == NameIn(d, k, cnt) + rest
    decreases cnt
  {
    hide FragChars, Store, HeadBit, LfnIndex, ParseFrags, NameIn, FullFragment;
    if cnt == 0 {
      assert buf[..len] == rest;
      ParseDone(d, k, crc, buf, len);
      NoName(d, k, rest);
    } else {
      assert IsFragment(d, k, crc);
      var c := FragChars(d[k], 0);
      var at := 13 * (cnt - 1);
      var b := Store(buf, at, c);
      assert rest != [] ==> FullFragment(d, k);
      FullIs(d, k);
      StoreInFront(buf, at, c, rest);
      ParseStep(d, k, cnt, crc, buf, len);
      ParseFragsOfGroup(d, k + 1, cnt - 1, crc, b, len + |c|, c + rest);
      NameStep(d, k, cnt, rest);
    }
  }

  lemma FullIs(d: seq<Slot>, k: nat)
    requires k < |d|
    ensures FullFragment(d, k) <==> |FragChars(d[k], 0)| == 13
  {
    hide FragChars;
  }

  lemma NoName(d: seq<Slot>, k: nat, rest: Name)
    requires k <= |d|
    ensures NameIn(d, k, 0) == [] && NameIn(d, k, 0) + rest == rest
  {
  }

  lemma NameStep(d: seq<Slot>, k: nat, n: nat, rest: Name)
    requires 0 < n && k + n <= |d|
    ensures NameIn(d, k, n) == NameIn(d, k + 1, n - 1) + FragChars(d[k], 0)
    ensures NameIn(d, k, n) + rest == NameIn(d, k + 1, n - 1) + (FragChars(d[k], 0) + rest)
  {
    hide FragChars;
  }

  /** On a well-formed directory the search of the code is the lookup, and the buffer does not matter. */
  lemma {:induction false} SearchIsLookup(d: seq<Slot>, k: nat, name: Name, buf: seq<byte>)
    requires WellFormed(d, k) && |buf| == 512
    ensures Search(d, k, name, buf) == Lookup(d, k, name)
    decreases |d| - k
  {
    hide FragChars, NameIn, Crc, ShortName, Store, ParseFrags, FullFragment, LfnIndex;
    if k < |d| && !IsLast(d[k]) {
      if IsFree(d[k]) {
        SearchIsLookup(d, k + 1, name, buf);
      } else if IsLfn(d[k]) {
        var n := SeqCount(d[k]);
        ParseFragsOfGroup(d, k, n, LfnCrc(d[k]), buf, 0, []);
        var r := ParseName(d, k, buf);
        assert r.buf[..r.len] == NameIn(d, k, n);
        SearchIsLookup(d, k + n + 1, name, r.buf);
      } else {
        SearchIsLookup(d, k + 1, name, buf);
      }
    }
  }

  // ---- Writing a name

  /** Which character of a fragment byte k of its record belongs to. */
  function CharOf(k: nat): (i: nat)
    requires 1 <= k < 32 && k != 11 && k != 12 && k != 13 && k != 26 && k != 27
    ensures i < 13 && (k == LfnIndex(i) || k == LfnIndex(i) + 1)
  {
    if k < 11 then (k - 1) / 2 else if k < 26 then (k - 4) / 2 else (k - 6) / 2
  }

  /** Byte k of the record that holds frag: the characters, a zero if there is space, and then 0xff. */
  function LfnByte(frag: Name, seqByte: byte, crc: byte, k: nat): byte
    requires |frag| <= 13 && k < 32
  {
    if k == 0 then seqByte
    else if k == 11 then ATTR_LFN
    else if k == 13 then crc
    else if k == 12 || k == 26 || k == 27 then 0
    else
      var i := CharOf(k);
      if i < |frag| then (if k == LfnIndex(i) then frag[i] else 0)
      else if i == |frag| then 0
      else 0xff
  }

  lemma CharOfIndex(i: nat)
    requires i < 13
    ensures CharOf(LfnIndex(i)) == i && CharOf(LfnIndex(i) + 1) == i
  {
  }

  function LfnSlot(frag: Name, seqByte: byte, crc: byte): (s: Slot)
    requires |frag| <= 13
  {
    seq(32, k requires 0 <= k < 32 => LfnByte(frag, seqByte, crc, k))
  }

  lemma {:induction false} FragRoundTrip(frag: Name, seqByte: byte, crc: byte, i: nat)
    requires |frag| <= 13 && 0 !in frag && i <= |frag|
    ensures FragChars(LfnSlot(frag, seqByte, crc), i) == frag[i..]
    decreases |frag| - i
  {
    var s := LfnSlot(frag, seqByte, crc);
    if i < 13 {
      assert CharOf(LfnIndex(i)) == i;
      assert s[LfnIndex(i)] == LfnByte(frag, seqByte, crc, LfnIndex(i));
      if i < |frag| {
        assert frag[i] in frag;
        FragRoundTrip(frag, seqByte, crc, i + 1);
      }
    }
  }

  function FragCount(name: Name): nat { (|name| + 12) / 13 }

  /** The characters that the first i fragments hold. */
  function Prefix(name: Name, i: nat): Name {
    if 13 * i < |name| then name[..13 * i] else name
  }

  /** Fragment i of a name, counted from 1. */
  function Frag(name: Name, i: nat): (f: Name)
    requires 1 <= i <= FragCount(name)
    ensures |f| <= 13 && (i < FragCount(name) ==> |f| == 13)
    ensures Prefix(name, i) == Prefix(name, i - 1) + f
  {
    var pos := 13 * (i - 1);
    if |name| - pos < 13 then name[pos..] else name[pos..pos + 13]
  }

  /** The record of fragment i; the topmost one carries the head bit. */
  function NameSlot(name: Name, i: nat, crc: byte): Slot
    requires 1 <= i <= FragCount(name) && |name| <= 255
  {
    LfnSlot(Frag(name, i), i + if i == FragCount(name) then 0x40 else 0, crc)
  }

  /** d holds the fragments i down to 1 of name from record k on. */
  ghost predicate HoldsFrags(d: seq<Slot>, k: nat, name: Name, i: nat, crc: byte)
    requires i <= FragCount(name) && |name| <= 255
    decreases i
  {
    i == 0 || (k < |d| && d[k] == NameSlot(name, i, crc) && HoldsFrags(d, k + 1, name, i - 1, crc))
  }

  /** A short entry that may follow the fragments of name. */
  predicate IsSfnOf(sfn: Slot, name: Name) {
    SfnName(sfn) == ShortName(name) && !IsLfn(sfn)
  }

  /** d holds a complete new entry for name from record k on. */
  ghost predicate HoldsEntry(d: seq<Slot>, k: nat, name: Name, sfn: Slot)
    requires 1 <= |name| <= 255
  {
    && k + FragCount(name) < |d| && d[k + FragCount(name)] == sfn
    && HoldsFrags(d, k, name, FragCount(name), Crc(SfnName(sfn)))
  }

  lemma SeqByteFacts(b: byte, i: nat, head: bool)
    requires 1 <= i <= 20 && b as int == i + if head then 0x40 else 0
    ensures b != SFN_LAST && b != SFN_FREE && b as int % 0x20 == i && (b / 0x40 % 2 == 1 <==> head)
  {
  }

  lemma LfnSlotBytes(frag: Name, seqByte: byte, crc: byte)
    requires |frag| <= 13
    ensures var s := LfnSlot(frag, seqByte, crc); s[0] == seqByte && s[11] == ATTR_LFN && s[13] == crc
  {
  }

  lemma NameSlotFacts(name: Name, i: nat, crc: byte)
    requires 1 <= i <= FragCount(name) && |name| <= 255 && 0 !in name
    ensures var s := NameSlot(name, i, crc);
      && FragChars(s, 0) == Frag(name, i) && IsLfn(s) && LfnCrc(s) == crc && !IsFree(s)
      && SeqCount(s) == i && (HeadBit(s) <==> i == FragCount(name))
  {
    hide FragChars, LfnSlot;
    var f := Frag(name, i);
    var head := i == FragCount(name);
    var seqByte := i + if head then 0x40 else 0;
    assert 0 !in f;
    FragRoundTrip(f, seqByte, crc, 0);
    LfnSlotBytes(f, seqByte, crc);
    SeqByteFacts(seqByte, i, head);
  }

  /** The fragments of a freshly written name read back as the name. */
  lemma {:induction false} FragsReadBack(d: seq<Slot>, k: nat, name: Name, i: nat, crc: byte)
    requires 1 <= |name| <= 255 && 0 !in name && i <= FragCount(name) && HoldsFrags(d, k, name, i, crc)
    ensures i == 0 || (k + i <= |d| && d[k] == NameSlot(name, i, crc) && NameIn(d, k, i) == Prefix(name, i))
    ensures forall j :: k <= j < k + i ==> IsFragment(d, j, crc)
    ensures forall j :: k <= j < k + i && !(j == k && i == FragCount(name)) ==> FullFragment(d, j)
    decreases i
  {
    hide NameSlot, Frag, Prefix, FragCount, FragChars, IsFree, IsLfn, LfnCrc, HeadBit, SeqCount;
    if i > 0 {
      NameSlotFacts(name, i, crc);
      FragsReadBack(d, k + 1, name, i - 1, crc);
      PrefixOfNone(name);
    }
  }

  lemma PrefixOfNone(name: Name)
    ensures Prefix(name, 0) == []
  {
  }

  lemma PrefixOfAll(name: Name)
    ensures Prefix(name, FragCount(name)) == name && (0 < |name| ==> 0 < FragCount(name)) && (|name| <= 255 ==> FragCount(name) <= 20)
  {
  }

  /** A freshly written entry is a group, and its name reads back exactly. */
  lemma NewEntryIsGroup(d: seq<Slot>, k: nat, name: Name, sfn: Slot)
    requires 1 <= |name| <= 255 && 0 !in name && IsSfnOf(sfn, name) && HoldsEntry(d, k, name, sfn)
    ensures IsGroup(d, k, FragCount(name)) && NameIn(d, k, FragCount(name)) == name
    ensures SeqCount(d[k]) == FragCount(name) && !IsFree(d[k]) && IsLfn(d[k])
  {
    hide NameSlot, Frag, Prefix, FragCount, FragChars, NameIn;
    var crc := Crc(SfnName(sfn));
    PrefixOfAll(name);
    FragsReadBack(d, k, name, FragCount(name), crc);
    NameSlotFacts(name, FragCount(name), crc);
    assert sfn[0] == SfnName(sfn)[0];
  }

  // ---- How changes to the records change lookups

  /** The directories hold the same records from k on. */
  ghost predicate SameFrom(d: seq<Slot>, e: seq<Slot>, k: nat) {
    |d| == |e| && forall i :: k <= i < |d| ==> d[i] == e[i]
  }

  lemma {:induction false} SameNames(d: seq<Slot>, e: seq<Slot>, k: nat, n: nat)
    requires k + n <= |d| && k + n <= |e| && forall i :: k <= i < k + n ==> d[i] == e[i]
    ensures NameIn(e, k, n) == NameIn(d, k, n)
    decreases n
  {
    if n > 0 {
      SameNames(d, e, k + 1, n - 1);
    }
  }

  lemma SameGroup(d: seq<Slot>, e: seq<Slot>, k: nat, n: nat)
    requires IsGroup(d, k, n) && k + n < |e| && forall i :: k <= i <= k + n ==> d[i] == e[i]
    ensures IsGroup(e, k, n) && NameIn(e, k, n) == NameIn(d, k, n)
  {
    hide FragChars, HeadBit, IsLfn, IsFree, LfnCrc, SeqCount;
    SameNames(d, e, k, n);
    forall i | k <= i < k + n
      ensures IsFragment(e, i, LfnCrc(e[k])) && (k < i ==> FullFragment(e, i))
    {
      assert IsFragment(d, i, LfnCrc(d[k])) && (k < i ==> FullFragment(d, i));
    }
  }

  /** A lookup only sees the records from where it starts. */
  lemma {:induction false} LookupSuffix(d: seq<Slot>, e: seq<Slot>, k: nat, name: Name)
    requires WellFormed(d, k) && SameFrom(d, e, k)
    ensures WellFormed(e, k) && Lookup(e, k, name) == Lookup(d, k, name)
    decreases |d| - k
  {
    hide IsGroup, NameIn, FragChars, HeadBit, SfnName, ShortName, LfnCrc, Crc;
    if k < |d| && !IsLast(d[k]) {
      if !IsFree(d[k]) && IsLfn(d[k]) {
        GroupInUse(d, k, SeqCount(d[k]), k + SeqCount(d[k]));
        SameGroup(d, e, k, SeqCount(d[k]));
        LookupSuffix(d, e, k + SeqCount(d[k]) + 1, name);
      } else {
        LookupSuffix(d, e, k + 1, name);
      }
    }
  }

  /** Records behind the end that mark the end change nothing: a grown directory means the same. */
  lemma {:induction false} LookupGrown(d: seq<Slot>, e: seq<Slot>, k: nat, name: Name)
    requires WellFormed(d, k) && d <= e && forall i :: |d| <= i < |e| ==> IsLast(e[i])
    ensures WellFormed(e, k) && Lookup(e, k, name) == Lookup(d, k, name)
    decreases |d| - k
  {
    hide IsGroup, NameIn, FragChars, HeadBit, SfnName, ShortName, LfnCrc, Crc;
    if k < |d| && !IsLast(d[k]) {
      if !IsFree(d[k]) && IsLfn(d[k]) {
        GroupInUse(d, k, SeqCount(d[k]), k + SeqCount(d[k]));
        SameGroup(d, e, k, SeqCount(d[k]));
        LookupGrown(d, e, k + SeqCount(d[k]) + 1, name);
      } else {
        LookupGrown(d, e, k + 1, name);
      }
    }
  }

  /** Records k to k + n are unused, and none of them marks the end. */
  ghost predicate Holes(d: seq<Slot>, k: nat, n: nat) {
    k + n <= |d| && forall i :: k <= i < k + n ==> d[i][0] == SFN_FREE
  }

  lemma {:induction false} LookupSkipsHoles(d: seq<Slot>, k: nat, n: nat, name: Name)
    requires Holes(d, k, n)
    ensures WellFormed(d, k) <==> WellFormed(d, k + n)
    ensures WellFormed(d, k) ==> Lookup(d, k, name) == Lookup(d, k + n, name)
    decreases n
  {
    if n > 0 {
      assert d[k][0] == SFN_FREE;
      LookupSkipsHoles(d, k + 1, n - 1, name);
    }
  }

  /** No record before k marks the end. */
  ghost predicate NoEndBefore(d: seq<Slot>, k: nat) {
    k <= |d| && forall i :: 0 <= i < k ==> !IsLast(d[i])
  }

  /**
   * d and e agree up to start, where d has an unused record. A lookup finds the same entry before
   * start in both, or else goes on at start in both.
   */
  lemma {:induction false} LookupUpTo(d: seq<Slot>, e: seq<Slot>, k: nat, start: nat, name: Name)
    requires WellFormed(d, k) && NoEndBefore(d, start) && k <= start < |d| && IsFree(d[start])
    requires |e| == |d| && (forall i :: 0 <= i < start ==> e[i] == d[i])
    requires WellFormed(e, start)
    ensures WellFormed(d, start) && WellFormed(e, k)
    ensures (Lookup(d, k, name).At? && Lookup(d, k, name).pos < start && Lookup(e, k, name) == Lookup(d, k, name))
         || (Lookup(d, k, name) == Lookup(d, start, name) && Lookup(e, k, name) == Lookup(e, start, name))
    decreases start - k
  {
    hide IsGroup, NameIn, FragChars, HeadBit, SeqCount, SfnName, ShortName, LfnCrc, Crc;
    if k < start {
      assert !IsLast(d[k]);
      if !IsFree(d[k]) && IsLfn(d[k]) {
        var n := SeqCount(d[k]);
        GroupAvoids(d, k, n, start);
        SameGroup(d, e, k, n);
        LookupUpTo(d, e, k + n + 1, start, name);
      } else {
        LookupUpTo(d, e, k + 1, start, name);
      }
    }
  }

  lemma GroupInUse(d: seq<Slot>, k: nat, n: nat, i: nat)
    requires IsGroup(d, k, n) && k <= i <= k + n
    ensures i < |d| && !IsFree(d[i])
  {
    assert i < k + n ==> IsFragment(d, i, LfnCrc(d[k]));
  }

  lemma GroupAvoids(d: seq<Slot>, k: nat, n: nat, i: nat)
    requires IsGroup(d, k, n) && k <= i < |d| && IsFree(d[i])
    ensures k + n < i
  {
    hide IsGroup;
    if i <= k + n {
      GroupInUse(d, k, n, i);
    }
  }

  // ---- Adding

  /** Byte k of the short entry that dir_add writes. */
  function SfnByte(name: seq<byte>, attr: byte, clust: nat, time: nat, date: nat, k: nat): byte
    requires |name| == 11 && k < 32
  {
    if k < 11 then name[k]
    else if k == 11 then attr
    else if k == 14 || k == 22 then time % 0x100
    else if k == 15 || k == 23 then time / 0x100 % 0x100
    else if k == 16 || k == 18 || k == 24 then date % 0x100
    else if k == 17 || k == 19 || k == 25 then date / 0x100 % 0x100
    else if k == 20 then clust / 0x1_0000 % 0x100
    else if k == 21 then clust / 0x100_0000 % 0x100
    else if k == 26 then clust % 0x100
    else if k == 27 then clust / 0x100 % 0x100
    else 0
  }

  function SfnSlot(name: seq<byte>, attr: byte, clust: nat, time: nat, date: nat): Slot
    requires |name| == 11
  {
    seq(32, k requires 0 <= k < 32 => SfnByte(name, attr, clust, time, date, k))
  }

  /** The first cluster a short entry points to. */
  function SfnCluster(s: Slot): nat {
    (s[20] as int + 0x100 * s[21] as int) * 0x1_0000 + s[26] as int + 0x100 * s[27] as int
  }

  lemma SfnSlotFacts(name: Name, attr: byte, clust: nat, time: nat, date: nat)
    requires attr != ATTR_LFN && clust < WORD_MOD
    ensures var s := SfnSlot(ShortName(name), attr, clust, time, date);
      IsSfnOf(s, name) && s[11] == attr && SfnCluster(s) == clust
  {
    hide ShortName;
    var s := SfnSlot(ShortName(name), attr, clust, time, date);
    assert SfnName(s) == ShortName(name);
    BytesOfWord(clust);
    assert clust / 0x100_0000 % 0x100 == clust / 0x100_0000;
  }

  /** The scan of dir_add in front of record k: cnt usable records, past an end mark if eod. */
  ghost predicate Scanned(d: seq<Slot>, k: nat, cnt: nat, eod: bool) {
    && cnt <= k <= |d| && NoEndBefore(d, k - cnt)
    && if eod then exists l :: k - cnt <= l < k && IsLast(d[l]) && Holes(d, k - cnt, l - (k - cnt))
       else NoEndBefore(d, k) && Holes(d, k - cnt, cnt)
  }

  lemma ScanStarts(d: seq<Slot>)
    ensures Scanned(d, 0, 0, false)
  {
  }

  lemma ScanStep(d: seq<Slot>, k: nat, cnt: nat, eod: bool)
    requires Scanned(d, k, cnt, eod) && k < |d|
    ensures Scanned(d, k + 1, if eod || IsFree(d[k]) then cnt + 1 else 0, eod || IsLast(d[k]))
  {
    if eod {
      var l :| k - cnt <= l < k && IsLast(d[l]) && Holes(d, k - cnt, l - (k - cnt));
      assert k + 1 - (cnt + 1) <= l < k + 1;
    } else if IsLast(d[k]) {
      assert k + 1 - (cnt + 1) <= k < k + 1 && Holes(d, k - cnt, k - (k - cnt));
    }
  }

  /** Growing the directory at its end does not disturb the scan. */
  lemma ScanGrown(d: seq<Slot>, e: seq<Slot>, k: nat, cnt: nat, eod: bool)
    requires Scanned(d, k, cnt, eod) && d <= e
    ensures Scanned(e, k, cnt, eod)
  {
    if eod {
      var l :| k - cnt <= l < k && IsLast(d[l]) && Holes(d, k - cnt, l - (k - cnt));
      assert IsLast(e[l]) && Holes(e, k - cnt, l - (k - cnt));
    }
  }

  /** A run of n records from s on is not to be had: one of them, in front of any end mark, is in use. */
  ghost predicate Blocked(d: seq<Slot>, s: nat, n: nat) {
    exists j :: s <= j < s + n && InUse(d, j)
  }

  ghost predicate InUse(d: seq<Slot>, j: nat) {
    j < |d| && !IsFree(d[j]) && NoEndBefore(d, j)
  }

  /** No run of n records starts in front of record k. */
  ghost predicate NoRunBefore(d: seq<Slot>, k: int, n: nat) {
    forall s :: 0 <= s < k ==> Blocked(d, s, n)
  }

  lemma NoRunAtFirst(d: seq<Slot>, n: nat)
    ensures NoRunBefore(d, 0, n)
  {
  }

  lemma FewerRuns(d: seq<Slot>, k: int, j: int, n: nat)
    requires NoRunBefore(d, k, n) && j <= k
    ensures NoRunBefore(d, j, n)
  {
  }

  /** The scan has passed over no run that it could have taken. */
  lemma ScanIsTight(d: seq<Slot>, k: nat, cnt: nat, eod: bool, n: nat)
    requires Scanned(d, k, cnt, eod) && k < |d| && cnt < n && NoRunBefore(d, k - cnt, n)
    ensures NoRunBefore(d, if eod || IsFree(d[k]) then k - cnt else k + 1, n)
  {
    if !eod && !IsFree(d[k]) {
      forall s | 0 <= s < k + 1
        ensures Blocked(d, s, n)
      {
        assert InUse(d, k);
      }
    }
  }

  lemma NoRunGrown(d: seq<Slot>, e: seq<Slot>, k: int, n: nat)
    requires NoRunBefore(d, k, n) && d <= e
    ensures NoRunBefore(e, k, n)
  {
    forall s | 0 <= s < k
      ensures Blocked(e, s, n)
    {
      assert Blocked(d, s, n);
      var j :| s <= j < s + n && InUse(d, j);
      assert InUse(e, j);
    }
  }

  /** A run that dir_add may use is exactly one that no record in use blocks. */
  lemma RunIff(d: seq<Slot>, s: nat, n: nat)
    requires 0 < n && s + n <= |d| && NoEndBefore(d, s)
    ensures Run(d, s, n, false) || Run(d, s, n, true) <==> !Blocked(d, s, n)
  {
    if Run(d, s, n, false) || Run(d, s, n, true) {
      RunIsNotBlocked(d, s, n);
    } else if !Blocked(d, s, n) {
      FreeUpTo(d, s, n);
    }
  }

  lemma RunIsNotBlocked(d: seq<Slot>, s: nat, n: nat)
    requires 0 < n && s + n <= |d| && (Run(d, s, n, false) || Run(d, s, n, true))
    ensures !Blocked(d, s, n)
  {
  }

  /** Unblocked records are free up to the first end mark, or all of them. */
  lemma {:induction false} FreeUpTo(d: seq<Slot>, s: nat, n: nat)
    requires 0 < n && s + n <= |d| && NoEndBefore(d, s) && !Blocked(d, s, n)
    ensures Run(d, s, n, false) || Run(d, s, n, true)
    decreases n
  {
    var k := s + n - 1;
    assert !InUse(d, k);
    if n > 1 {
      assert !Blocked(d, s, n - 1);
      FreeUpTo(d, s, n - 1);
    }
    assert IsLast(d[k]) && Holes(d, s, k - s) ==> Run(d, s, n, true);
  }

  lemma ScanEnds(d: seq<Slot>, start: nat, n: nat, eod: bool)
    requires Scanned(d, start + n, n, eod) && 0 < n
    ensures Run(d, start, n, eod)
  {
  }

  /** e is d with the first n records of a new entry written from start on. */
  ghost predicate Writing(d: seq<Slot>, e: seq<Slot>, start: nat, name: Name, crc: byte, n: nat)
    requires 1 <= |name| <= 255
  {
    && |e| == |d| && n <= FragCount(name) && start + n <= |d|
    && (forall j :: 0 <= j < n ==> WrittenAt(e, start, name, crc, j))
    && forall j :: 0 <= j < |d| && !(start <= j < start + n) ==> e[j] == d[j]
  }

  ghost predicate WrittenAt(e: seq<Slot>, start: nat, name: Name, crc: byte, j: nat)
    requires 1 <= |name| <= 255
  {
    j < FragCount(name) && start + j < |e| && e[start + j] == NameSlot(name, FragCount(name) - j, crc)
  }

  lemma WritingStarts(d: seq<Slot>, start: nat, name: Name, crc: byte)
    requires 1 <= |name| <= 255 && start <= |d|
    ensures Writing(d, d, start, name, crc, 0)
  {
  }

  lemma WritingGoesOn(d: seq<Slot>, e: seq<Slot>, start: nat, name: Name, crc: byte, n: nat)
    requires 1 <= |name| <= 255 && Writing(d, e, start, name, crc, n) && n < FragCount(name) && start + n < |d|
    ensures Writing(d, e[start + n := NameSlot(name, FragCount(name) - n, crc)], start, name, crc, n + 1)
  {
    hide NameSlot;
    var f := e[start + n := NameSlot(name, FragCount(name) - n, crc)];
    forall j | 0 <= j < n + 1
      ensures WrittenAt(f, start, name, crc, j)
    {
      assert j < n ==> WrittenAt(e, start, name, crc, j);
    }
  }

  lemma {:induction false} WrittenHolds(e: seq<Slot>, start: nat, name: Name, crc: byte, i: nat)
    requires 1 <= |name| <= 255 && i <= FragCount(name)
    requires forall j :: FragCount(name) - i <= j < FragCount(name) ==> WrittenAt(e, start, name, crc, j)
    ensures HoldsFrags(e, start + FragCount(name) - i, name, i, crc)
    decreases i
  {
    hide NameSlot;
    if i > 0 {
      assert WrittenAt(e, start, name, crc, FragCount(name) - i);
      WrittenHolds(e, start, name, crc, i - 1);
    }
  }

  /** All fragments and then the short entry: the name has been added to d, which ended at the run if eod. */
  lemma WritingEnds(d0: seq<Slot>, d: seq<Slot>, e: seq<Slot>, start: nat, name: Name, sfn: Slot, eod: bool)
    requires 1 <= |name| <= 255
    requires var n := FragCount(name);
      && Run(d0, start, n + 1, eod) && start + n + 1 < |d0|
      && |d| == |d0| && d == (if eod then d0[start + n + 1 := d0[start + n + 1][0 := SFN_LAST]] else d0)
      && Writing(d, e, start, name, Crc(SfnName(sfn)), n)
    ensures Added(d0, e[start + FragCount(name) := sfn], start, name, sfn, eod)
  {
    hide NameSlot, Run, Crc, SfnName, FragCount;
    var n := FragCount(name);
    var f := e[start + n := sfn];
    forall j | 0 <= j < n
      ensures WrittenAt(f, start, name, Crc(SfnName(sfn)), j)
    {
      assert WrittenAt(e, start, name, Crc(SfnName(sfn)), j);
    }
    WrittenHolds(f, start, name, Crc(SfnName(sfn)), n);
    RunBounds(d0, start, n + 1, eod);
  }

  lemma RunBounds(d: seq<Slot>, start: nat, n: nat, eod: bool)
    requires Run(d, start, n, eod)
    ensures start < |d| && (!eod ==> start + n <= |d|)
  {
  }

  /** Added to a directory that had first been grown at its end: the same, seen from the original directory. */
  lemma GrownThenAdded(d0: seq<Slot>, d: seq<Slot>, e: seq<Slot>, start: nat, name: Name, sfn: Slot, eod: bool)
    requires 1 <= |name| <= 255 && 0 !in name && IsSfnOf(sfn, name) && Added(d, e, start, name, sfn, eod)
    requires d0 <= d && forall i :: |d0| <= i < |d| ==> IsLast(d[i])
    requires WellFormed(d0, 0) && Lookup(d0, 0, name) == NotFound
    ensures WellFormed(e, 0)
    ensures forall other :: Lookup(e, 0, other) == if other == name then At(start, start + FragCount(name)) else Lookup(d0, 0, other)
  {
    hide Added, IsSfnOf, Lookup, WellFormed, FragCount;
    LookupGrown(d0, d, 0, name);
    AddedLookup(d, e, start, name, sfn, eod, name);
    forall other
      ensures Lookup(e, 0, other) == if other == name then At(start, start + FragCount(name)) else Lookup(d0, 0, other)
    {
      LookupGrown(d0, d, 0, other);
      AddedLookup(d, e, start, name, sfn, eod, other);
    }
  }

  /** A run of n records from start on that dir_add may use: all unused, or unused up to the end mark. */
  ghost predicate Run(d: seq<Slot>, start: nat, n: nat, eod: bool) {
    && NoEndBefore(d, start) && start < |d|
    && if eod then exists l :: start <= l < start + n && l < |d| && IsLast(d[l]) && Holes(d, start, l - start)
       else Holes(d, start, n)
  }

  /** What dir_add makes of d: the entry in the run and, behind a run that hit the end, a new end mark. */
  ghost predicate Added(d: seq<Slot>, e: seq<Slot>, start: nat, name: Name, sfn: Slot, eod: bool)
    requires 1 <= |name| <= 255
  {
    var n := FragCount(name) + 1;
    && |e| == |d| && Run(d, start, n, eod) && HoldsEntry(e, start, name, sfn)
    && (forall i :: 0 <= i < start ==> e[i] == d[i])
    && if eod then start + n < |e| && IsLast(e[start + n])
       else forall i :: start + n <= i < |d| ==> e[i] == d[i]
  }

  lemma LookupAtGroup(d: seq<Slot>, k: nat, n: nat, name: Name)
    requires k < |d| && IsGroup(d, k, n) && SeqCount(d[k]) == n && !IsFree(d[k]) && IsLfn(d[k])
    ensures WellFormed(d, k) <==> WellFormed(d, k + n + 1)
    ensures WellFormed(d, k) ==> Lookup(d, k, name) == if NameIn(d, k, n) == name then At(k, k + n) else Lookup(d, k + n + 1, name)
  {
    hide IsGroup, NameIn, HeadBit, Crc, LfnCrc, SfnName, ShortName, FragChars, SeqCount;
    GroupInUse(d, k, n, k + n);
  }

  lemma LookupAtEnd(d: seq<Slot>, k: nat, name: Name)
    requires k >= |d| || IsLast(d[k])
    ensures WellFormed(d, k) && Lookup(d, k, name) == NotFound
  {
  }

  /** At the run itself: the old directory goes on behind it, the new one has the entry there. */
  lemma LookupAtRun(d: seq<Slot>, e: seq<Slot>, start: nat, name: Name, sfn: Slot, eod: bool, other: Name)
    requires 1 <= |name| <= 255 && 0 !in name && IsSfnOf(sfn, name) && Added(d, e, start, name, sfn, eod)
    requires WellFormed(d, start)
    ensures WellFormed(e, start)
    ensures Lookup(e, start, other) == if other == name then At(start, start + FragCount(name)) else Lookup(d, start, other)
  {
    hide FragCount, IsSfnOf, HoldsEntry, IsGroup, WellFormed, Lookup, NameIn, SeqCount, IsLfn, IsFree;
    var n := FragCount(name);
    NewEntryIsGroup(e, start, name, sfn);
    LookupAtGroup(e, start, n, other);
    if eod {
      var l :| start <= l < start + n + 1 && l < |d| && IsLast(d[l]) && Holes(d, start, l - start);
      LookupSkipsHoles(d, start, l - start, other);
      LookupAtEnd(d, l, other);
      LookupAtEnd(e, start + n + 1, other);
    } else {
      LookupSkipsHoles(d, start, n + 1, other);
      LookupSuffix(d, e, start + n + 1, other);
    }
  }

  /** Adding an absent name: it is found where it was put, and every other lookup is as before. */
  lemma AddedLookup(d: seq<Slot>, e: seq<Slot>, start: nat, name: Name, sfn: Slot, eod: bool, other: Name)
    requires 1 <= |name| <= 255 && 0 !in name && IsSfnOf(sfn, name) && Added(d, e, start, name, sfn, eod)
    requires WellFormed(d, 0) && Lookup(d, 0, name) == NotFound
    ensures WellFormed(e, 0)
    ensures Lookup(e, 0, other) == if other == name then At(start, start + FragCount(name)) else Lookup(d, 0, other)
  {
    hide FragCount, IsSfnOf, HoldsEntry, WellFormed, Lookup;
    RunStartsFree(d, start, FragCount(name) + 1, eod);
    WellFormedAt(d, 0, start);
    LookupAtRun(d, e, start, name, sfn, eod, other);
    LookupUpTo(d, e, 0, start, other);
  }

  lemma RunStartsFree(d: seq<Slot>, start: nat, n: nat, eod: bool)
    requires Run(d, start, n, eod) && 0 < n
    ensures IsFree(d[start])
  {
    if eod {
      var l :| start <= l < start + n && l < |d| && IsLast(d[l]) && Holes(d, start, l - start);
    }
  }

  /** An unused record before the end is never inside a group. */
  lemma {:induction false} WellFormedAt(d: seq<Slot>, k: nat, start: nat)
    requires WellFormed(d, k) && NoEndBefore(d, start) && k <= start < |d| && IsFree(d[start])
    ensures WellFormed(d, start)
    decreases start - k
  {
    hide IsGroup, NameIn, FragChars, HeadBit, SfnName, ShortName, LfnCrc, Crc;
    if k < start {
      assert !IsLast(d[k]);
      if !IsFree(d[k]) && IsLfn(d[k]) {
        GroupAvoids(d, k, SeqCount(d[k]), start);
        WellFormedAt(d, k + SeqCount(d[k]) + 1, start);
      } else {
        WellFormedAt(d, k + 1, start);
      }
    }
  }

  // ---- Removing

  function Freed(s: Slot): Slot { s[0 := SFN_FREE] }

  /** What remove_entries makes of d: records first to pos are marked unused. */
  ghost predicate Cleared(d: seq<Slot>, e: seq<Slot>, first: nat, pos: nat) {
    && |e| == |d| && first <= pos < |d|
    && (forall i :: 0 <= i < |d| ==> e[i] == if first <= i <= pos then Freed(d[i]) else d[i])
  }

  /** The removal has come to record k. */
  ghost predicate ClearedSoFar(d: seq<Slot>, e: seq<Slot>, first: nat, k: nat) {
    |e| == |d| && first <= k <= |d| && forall i :: 0 <= i < |d| ==> e[i] == if first <= i < k then Freed(d[i]) else d[i]
  }

  lemma ClearStarts(d: seq<Slot>, first: nat)
    requires first <= |d|
    ensures ClearedSoFar(d, d, first, first)
  {
  }

  lemma ClearStep(d: seq<Slot>, e: seq<Slot>, first: nat, k: nat)
    requires ClearedSoFar(d, e, first, k) && k < |d|
    ensures k < |e| && ClearedSoFar(d, e[k := Freed(e[k])], first, k + 1) && Cleared(d, e[k := Freed(e[k])], first, k)
  {
  }

  /** At the removed entry itself, the search goes on behind it. */
  lemma LookupAtCleared(d: seq<Slot>, e: seq<Slot>, first: nat, pos: nat, other: Name)
    requires Cleared(d, e, first, pos) && WellFormed(d, pos + 1)
    ensures WellFormed(e, first) && Lookup(e, first, other) == Lookup(d, pos + 1, other)
  {
    hide IsGroup, NameIn, WellFormed, Lookup;
    LookupSuffix(d, e, pos + 1, other);
    LookupSkipsHoles(e, first, pos + 1 - first, other);
  }

  lemma {:induction false} FoundIsAhead(d: seq<Slot>, k: nat, name: Name)
    requires WellFormed(d, k) && Lookup(d, k, name).At?
    ensures var r := Lookup(d, k, name); k <= r.first <= r.pos < |d| && !IsFree(d[r.first]) && WellFormed(d, r.pos + 1)
    decreases |d| - k
  {
    hide NameIn, FragChars, HeadBit, SfnName, ShortName, LfnCrc, Crc;
    if IsFree(d[k]) {
      FoundIsAhead(d, k + 1, name);
    } else {
      var n := if IsLfn(d[k]) then SeqCount(d[k]) else 0;
      if Lookup(d, k, name) != At(k, k + n) {
        FoundIsAhead(d, k + n + 1, name);
      }
    }
  }

  /** The entry at k is the one that a lookup of another name passes over or finds too. */
  lemma FoundHere(d: seq<Slot>, k: nat, name: Name, other: Name, pos: nat)
    requires WellFormed(d, k) && Lookup(d, k, name) == At(k, pos)
    ensures WellFormed(d, pos + 1)
    ensures Lookup(d, k, other) == At(k, pos) || Lookup(d, k, other) == Lookup(d, pos + 1, other)
  {
    hide IsGroup, NameIn, FragChars, HeadBit, SeqCount, SfnName, ShortName, LfnCrc, Crc;
    if IsFree(d[k]) {
      FoundIsAhead(d, k + 1, name);
    } else {
      var n := if IsLfn(d[k]) then SeqCount(d[k]) else 0;
      if pos != k + n {
        FoundIsAhead(d, k + n + 1, name);
      }
    }
  }

  /** Lookups after a removal: whatever found the removed entry now goes on behind it. */
  lemma {:induction false} ClearedLookup(d: seq<Slot>, e: seq<Slot>, k: nat, first: nat, pos: nat, name: Name, other: Name)
    requires WellFormed(d, k) && Lookup(d, k, name) == At(first, pos) && Cleared(d, e, first, pos)
    ensures WellFormed(d, pos + 1) && WellFormed(e, k)
    ensures Lookup(e, k, other) ==
            if Lookup(d, k, other) == At(first, pos) then Lookup(d, pos + 1, other) else Lookup(d, k, other)
    decreases |d| - k
  {
    hide IsGroup, NameIn, FragChars, HeadBit, SeqCount, SfnName, ShortName, LfnCrc, Crc, Freed;
    FoundIsAhead(d, k, name);
    if k == first {
      LookupAtCleared(d, e, first, pos, other);
      FoundHere(d, k, name, other, pos);
    } else if !IsFree(d[k]) && IsLfn(d[k]) {
      var n := SeqCount(d[k]);
      FoundIsAhead(d, k + n + 1, name);
      SameGroup(d, e, k, n);
      ClearedLookup(d, e, k + n + 1, first, pos, name, other);
    } else {
      ClearedLookup(d, e, k + 1, first, pos, name, other);
    }
  }

  /** Behind the new entry nothing has the added name. */
  lemma AbsentBehind(d: seq<Slot>, e: seq<Slot>, start: nat, name: Name, sfn: Slot, eod: bool)
    requires 1 <= |name| <= 255 && 0 !in name && IsSfnOf(sfn, name) && Added(d, e, start, name, sfn, eod)
    requires WellFormed(d, 0) && Lookup(d, 0, name) == NotFound
    ensures WellFormed(e, start + FragCount(name) + 1) && Lookup(e, start + FragCount(name) + 1, name) == NotFound
  {
    hide FragCount, IsSfnOf, HoldsEntry, IsGroup, ShortName;
    var n := FragCount(name);
    RunStartsFree(d, start, n + 1, eod);
    WellFormedAt(d, 0, start);
    LookupUpTo(d, d, 0, start, name);
    if !eod {
      LookupSkipsHoles(d, start, n + 1, name);
      LookupSuffix(d, e, start + n + 1, name);
    }
  }

  /** Adding a name and removing it again leaves every lookup as it was; in particular the name is gone. */
  lemma AddThenClear(d: seq<Slot>, e: seq<Slot>, f: seq<Slot>, start: nat, name: Name, sfn: Slot, eod: bool, other: Name)
    requires 1 <= |name| <= 255 && 0 !in name && IsSfnOf(sfn, name) && Added(d, e, start, name, sfn, eod)
    requires WellFormed(d, 0) && Lookup(d, 0, name) == NotFound
    requires Cleared(e, f, start, start + FragCount(name))
    ensures WellFormed(f, 0) && Lookup(f, 0, other) == Lookup(d, 0, other)
  {
    hide FragCount, IsSfnOf, HoldsEntry, WellFormed, Lookup, Holes, Cleared;
    AddedLookup(d, e, start, name, sfn, eod, name);
    AddedLookup(d, e, start, name, sfn, eod, other);
    ClearedLookup(e, f, 0, start, start + FragCount(name), name, other);
    AbsentBehind(d, e, start, name, sfn, eod);
    RunStartsFree(d, start, FragCount(name) + 1, eod);
    if Lookup(d, 0, other).At? {
      FoundIsAhead(d, 0, other);
    }
  }
}
