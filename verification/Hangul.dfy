// Typing Korean: the two-set input method that composes syllables from keys, and the UTF-8 encoder and
// decoder that carry the code points on.
module Hangul {

  // ---- Keys

  const NO_CODE: nat := 0xff

  /** What a key stands for: 0 to 18 an initial, 0x40 to 0x54 a vowel, 0xff neither. */
  function KeyCode(scancode: nat, shift: bool): nat {
    match scancode
    case 0x10 => if shift then 8 else 7
    case 0x11 => if shift then 13 else 12
    case 0x12 => if shift then 4 else 3
    case 0x13 => if shift then 1 else 0
    case 0x14 => if shift then 10 else 9
    case 0x15 => 0x4c
    case 0x16 => 0x46
    case 0x17 => 0x42
    case 0x18 => if shift then 0x43 else 0x41
    case 0x19 => if shift then 0x47 else 0x45
    case 0x1e => 6
    case 0x1f => 2
    case 0x20 => 11
    case 0x21 => 5
    case 0x22 => 18
    case 0x23 => 0x48
    case 0x24 => 0x44
    case 0x25 => 0x40
    case 0x26 => 0x54
    case 0x2c => 15
    case 0x2d => 16
    case 0x2e => 14
    case 0x2f => 17
    case 0x30 => 0x51
    case 0x31 => 0x4d
    case 0x32 => 0x52
    case _ => if 0x38 <= scancode < 0x40 then 0 else NO_CODE  // entries the table does not list are zero
  }

  datatype Key = Key(scancode: nat, shift: bool)

  function CodeOf(k: Key): nat { KeyCode(k.scancode, k.shift) }

  /** Initials by index, as finals; -1 for the three that cannot be finals. */
  const CHO_TO_JONG: seq<int> := [1, 2, 4, 7, -1, 8, 16, 17, -1, 19, 20, 21, 22, -1, 23, 24, 25, 26, 27]

  /** The key of an initial. */
  function ChoKey(i: nat): (k: Key)
    requires i < 19
    ensures k.scancode < 0x38 && CodeOf(k) == i
  {
    if i == 0 then Key(0x13, false) else if i == 1 then Key(0x13, true) else if i == 2 then Key(0x1f, false)
    else if i == 3 then Key(0x12, false) else if i == 4 then Key(0x12, true) else if i == 5 then Key(0x21, false)
    else if i == 6 then Key(0x1e, false) else if i == 7 then Key(0x10, false) else if i == 8 then Key(0x10, true)
    else if i == 9 then Key(0x14, false) else if i == 10 then Key(0x14, true) else if i == 11 then Key(0x20, false)
    else if i == 12 then Key(0x11, false) else if i == 13 then Key(0x11, true) else if i == 14 then Key(0x2e, false)
    else if i == 15 then Key(0x2c, false) else if i == 16 then Key(0x2d, false) else if i == 17 then Key(0x2f, false)
    else Key(0x22, false)
  }

  /** The vowels that have a key of their own. */
  predicate HasKey(j: nat) {
    j <= 8 || j == 12 || j == 13 || j == 17 || j == 18 || j == 20
  }

  function JungKey(j: nat): (k: Key)
    requires HasKey(j)
    ensures k.scancode < 0x38 && CodeOf(k) == 0x40 + j
  {
    if j == 0 then Key(0x25, false) else if j == 1 then Key(0x18, false) else if j == 2 then Key(0x17, false)
    else if j == 3 then Key(0x18, true) else if j == 4 then Key(0x24, false) else if j == 5 then Key(0x19, false)
    else if j == 6 then Key(0x16, false) else if j == 7 then Key(0x19, true) else if j == 8 then Key(0x23, false)
    else if j == 12 then Key(0x15, false) else if j == 13 then Key(0x31, false) else if j == 17 then Key(0x30, false)
    else if j == 18 then Key(0x32, false) else Key(0x26, false)
  }

  // ---- Composition

  /** The syllable being composed; -1 for a part that is not there yet. */
  datatype State = State(cho: int, jung: int, jong: int)

  const EMPTY: State := State(-1, -1, -1)

  /** The code point of a syllable; 0 without initial or vowel. */
  function MakeCodepoint(cho: int, jung: int, jong: int): int {
    if cho < 0 || jung < 0 then 0 else 0xac00 + (cho * 21 + jung) * 28 + (if jong < 0 then 0 else jong)
  }

  /** The first initial from i on that makes the given final; 0 if there is none. */
  function JongToCho(jong: int, i: nat): nat
    requires i <= 19
    decreases 19 - i
  {
    if i == 19 then 0 else if CHO_TO_JONG[i] == jong then i else JongToCho(jong, i + 1)
  }

  /** What a key with the given code does to the composition, and the code point it completes, or 0. */
  function Typed(s: State, code: nat): (r: (State, int))
    requires code < 19 || 0x40 <= code < 0x55
  {
    if code < 19 then
      if s.cho < 0 then (State(code, -1, -1), 0)
      else if s.jung < 0 then (State(code, -1, -1), 0x3131 + s.cho)
      else if s.jong < 0 && CHO_TO_JONG[code] >= 0 then (s.(jong := CHO_TO_JONG[code]), 0)
      else (State(code, -1, -1), MakeCodepoint(s.cho, s.jung, s.jong))
    else
      var idx := code - 0x40;
      if s.cho < 0 then (s, 0x3161 + idx)
      else if s.jung < 0 then (s.(jung := idx), 0)
      else if s.jong >= 0 then (State(JongToCho(s.jong, 0), idx, -1), MakeCodepoint(s.cho, s.jung, -1))
      else (State(-1, idx, -1), MakeCodepoint(s.cho, s.jung, -1))
  }

  function Flushed(s: State): int {
    if s.cho < 0 && s.jung < 0 then 0 else MakeCodepoint(s.cho, s.jung, s.jong)
  }

  lemma KeyCodes(scancode: nat, shift: bool)
    ensures KeyCode(scancode, shift) == NO_CODE || KeyCode(scancode, shift) < 19 || 0x40 <= KeyCode(scancode, shift) < 0x55
  {
  }

  class Ime {
    var cho: int
    var jung: int
    var jong: int
    var active: bool

    ghost function Now(): State
      reads this
    {
      State(cho, jung, jong)
    }

    constructor ()
      ensures Now() == EMPTY && !active
    {
      cho, jung, jong, active := -1, -1, -1, false;
    }

    method Toggle()
      modifies this
      ensures active == !old(active) && Now() == if active then old(Now()) else EMPTY
    {
      active := !active;
      if !active {
        cho, jung, jong := -1, -1, -1;
      }
    }

    method Flush() returns (cp: int)
      modifies this
      ensures cp == Flushed(old(Now())) && active == old(active)
      ensures Now() == if old(Now()).cho < 0 && old(Now()).jung < 0 then old(Now()) else EMPTY
    {
      if cho < 0 && jung < 0 {
        return 0;
      }
      cp := MakeCodepoint(cho, jung, jong);
      cho, jung, jong := -1, -1, -1;
    }

    /** The completed code point, 0 if there is none yet, 0xffffffff if Korean input is off. */
    method Input(scancode: nat, shift: bool) returns (cp: int)
      modifies this
      ensures active == old(active)
      ensures !active ==> cp == 0xffff_ffff && Now() == old(Now())
      ensures active && scancode >= 0x40 ==> cp == 0 && Now() == old(Now())
      ensures active && scancode < 0x40 && KeyCode(scancode, shift) == NO_CODE ==>
        cp == Flushed(old(Now())) && Now() == if old(Now()).cho < 0 && old(Now()).jung < 0 then old(Now()) else EMPTY
      ensures active && scancode < 0x40 && KeyCode(scancode, shift) != NO_CODE ==>
        (KeyCode(scancode, shift) < 19 || 0x40 <= KeyCode(scancode, shift) < 0x55)
        && (Now(), cp) == Typed(old(Now()), KeyCode(scancode, shift))
    {
      hide KeyCode;
      if !active {
        return 0xffff_ffff;
      }
      if scancode >= 0x40 {
        return 0;
      }
      KeyCodes(scancode, shift);
      var code := KeyCode(scancode, shift);
      if code == NO_CODE {
        cp := Flush();
        return;
      }
      var idx := code % 0x40;
      if code / 0x40 == 0 {
        if cho < 0 {
          cho, jung, jong := idx, -1, -1;
          return 0;
        } else if jung < 0 {
          cp := 0x3131 + cho;
          cho, jung, jong := idx, -1, -1;
        } else if jong < 0 {
          var jc := CHO_TO_JONG[idx];
          if jc >= 0 {
            jong := jc;
            return 0;
          } else {
            cp := MakeCodepoint(cho, jung, -1);
            cho, jung, jong := idx, -1, -1;
          }
        } else {
          cp := MakeCodepoint(cho, jung, jong);
          cho, jung, jong := idx, -1, -1;
        }
      } else {
        if cho < 0 {
          return 0x3161 + idx;
        } else if jung < 0 {
          jung := idx;
          return 0;
        } else if jong >= 0 {
          cp := MakeCodepoint(cho, jung, -1);
          var newCho := -1;
          for i := 0 to 19
            invariant newCho == -1 && JongToCho(jong, 0) == JongToCho(jong, i)
          {
            if CHO_TO_JONG[i] == jong {
              newCho := i;
              break;
            }
          }
          if newCho < 0 {
            newCho := 0;
          }
          cho, jung, jong := newCho, idx, -1;
        } else {
          cp := MakeCodepoint(cho, jung, -1);
          cho, jung, jong := -1, idx, -1;
        }
      }
    }
  }

  // ---- Typing syllables

  /** A syllable; last is the initial that is typed for its final, or -1 for none. */
  datatype Syllable = Syllable(cho: nat, jung: nat, last: int)

  predicate Typable(s: Syllable) {
    s.cho < 19 && HasKey(s.jung) && (s.last == -1 || (0 <= s.last < 19 && CHO_TO_JONG[s.last] >= 0))
  }

  function JongOf(s: Syllable): int
    requires Typable(s)
  {
    if s.last < 0 then -1 else CHO_TO_JONG[s.last]
  }

  function CodepointOf(s: Syllable): (cp: nat)
    requires Typable(s)
    ensures 0xac00 <= cp < 0xd7a4
  {
    MakeCodepoint(s.cho, s.jung, JongOf(s))
  }

  function KeysOf(s: Syllable): seq<Key>
    requires Typable(s)
  {
    [ChoKey(s.cho), JungKey(s.jung)] + if s.last < 0 then [] else [ChoKey(s.last)]
  }

  predicate AllTypable(t: seq<Syllable>) { forall i :: 0 <= i < |t| ==> Typable(t[i]) }

  function KeysFor(t: seq<Syllable>): seq<Key>
    requires AllTypable(t)
  {
    if t == [] then [] else KeysOf(t[0]) + KeysFor(t[1..])
  }

  predicate IsJamo(k: Key) { CodeOf(k) != NO_CODE }

  /** Where a run of keys leads, and the code points completed on the way. */
  function Run(s: State, keys: seq<Key>): (State, seq<int>)
    requires forall i :: 0 <= i < |keys| ==> IsJamo(keys[i])
    decreases |keys|
  {
    if keys == [] then (s, [])
    else
      KeyCodes(keys[0].scancode, keys[0].shift);
      assert IsJamo(keys[0]);
      var (s1, cp) := Typed(s, CodeOf(keys[0]));
      var (s2, rest) := Run(s1, keys[1..]);
      (s2, (if cp != 0 then [cp] else []) + rest)
  }

  /** The state in which a complete syllable waits. */
  function Waiting(s: Syllable): State
    requires Typable(s)
  {
    State(s.cho, s.jung, JongOf(s))
  }

  lemma {:induction false} RunTwice(s: State, a: seq<Key>, b: seq<Key>)
    requires forall i :: 0 <= i < |a| ==> IsJamo(a[i])
    requires forall i :: 0 <= i < |b| ==> IsJamo(b[i])
    ensures (forall i :: 0 <= i < |a + b| ==> IsJamo((a + b)[i]))
    ensures Run(s, a + b) == (Run(Run(s, a).0, b).0, Run(s, a).1 + Run(Run(s, a).0, b).1)
    decreases |a|
  {
    hide Typed, KeyCode;
    if a == [] {
      assert a + b == b;
      assert Run(s, a) == (s, []) && [] + Run(s, b).1 == Run(s, b).1;
    } else {
      assert (a + b)[1..] == a[1..] + b && (a + b)[0] == a[0];
      assert IsJamo(a[0]);
      KeyCodes(a[0].scancode, a[0].shift);
      var (s1, cp) := Typed(s, CodeOf(a[0]));
      RunTwice(s1, a[1..], b);
      var first, ra := if cp != 0 then [cp] else [], Run(s1, a[1..]);
      assert first + (ra.1 + Run(ra.0, b).1) == first + ra.1 + Run(ra.0, b).1;
      assert Run(s, a) == (ra.0, first + ra.1);
      assert Run(s, a + b) == (Run(ra.0, b).0, first + (ra.1 + Run(ra.0, b).1));
    }
  }

  /** A final handed over to the next syllable turns back into the initial it came from. */
  lemma HandOver(i: nat)
    requires i < 19 && CHO_TO_JONG[i] >= 0
    ensures JongToCho(CHO_TO_JONG[i], 0) == i
  {
    FirstFrom(i, 0);
  }

  lemma {:induction false} FirstFrom(i: nat, k: nat)
    requires k <= i < 19 && CHO_TO_JONG[i] >= 0
    ensures JongToCho(CHO_TO_JONG[i], k) == i
    decreases i - k
  {
    if k < i {
      FinalsDiffer(k, i);
      FirstFrom(i, k + 1);
    }
  }

  lemma FinalsDiffer(k: nat, i: nat)
    requires k < i < 19 && CHO_TO_JONG[i] >= 0
    ensures CHO_TO_JONG[k] != CHO_TO_JONG[i]
  {
  }

  lemma JamoKeys(s: Syllable)
    requires Typable(s)
    ensures forall i :: 0 <= i < |KeysOf(s)| ==> IsJamo(KeysOf(s)[i])
  {
  }

  lemma RunOne(s: State, a: Key)
    requires IsJamo(a)
    ensures CodeOf(a) < 19 || 0x40 <= CodeOf(a) < 0x55
    ensures var (s1, x) := Typed(s, CodeOf(a)); Run(s, [a]) == (s1, if x != 0 then [x] else [])
  {
    hide Typed, KeyCode;
    KeyCodes(a.scancode, a.shift);
    var (s1, x) := Typed(s, CodeOf(a));
    assert [a][1..] == [];
    assert Run(s1, []) == (s1, []);
    assert (if x != 0 then [x] else []) + [] == if x != 0 then [x] else [];
  }

  /** Two keys in a row. */
  lemma RunPair(s: State, a: Key, b: Key)
    requires IsJamo(a) && IsJamo(b)
    ensures CodeOf(a) < 19 || 0x40 <= CodeOf(a) < 0x55
    ensures CodeOf(b) < 19 || 0x40 <= CodeOf(b) < 0x55
    ensures var (s1, x) := Typed(s, CodeOf(a));
      var (s2, y) := Typed(s1, CodeOf(b));
      Run(s, [a, b]) == (s2, (if x != 0 then [x] else []) + (if y != 0 then [y] else []))
  {
    hide Typed, KeyCode, Run;
    RunOne(s, a);
    RunOne(Run(s, [a]).0, b);
    RunTwice(s, [a], [b]);
    assert [a] + [b] == [a, b];
  }

  /** The keys of a syllable complete what has been waiting, exactly once, and leave the syllable waiting. */
  lemma TypeOne(s: State, out: seq<int>, t: Syllable)
    requires Typable(t)
    requires (s == EMPTY && out == []) || exists p: Syllable :: Typable(p) && s == Waiting(p) && out == [CodepointOf(p)]
    ensures forall i :: 0 <= i < |KeysOf(t)| ==> IsJamo(KeysOf(t)[i])
    ensures Run(s, KeysOf(t)) == (Waiting(t), out)
  {
    hide Run, KeyCode, ChoKey, JungKey, JongToCho;
    JamoKeys(t);
    var a, b := ChoKey(t.cho), JungKey(t.jung);
    RunPair(s, a, b);
    var (s1, x) := Typed(s, CodeOf(a));
    var (s2', y) := Typed(s1, CodeOf(b));
    var s2 := State(t.cho, t.jung, -1);
    if s == EMPTY {
      assert s1 == State(t.cho, -1, -1) && x == 0 && s2' == s2 && y == 0;
    } else {
      var p: Syllable :| Typable(p) && s == Waiting(p) && out == [CodepointOf(p)];
      var cp := CodepointOf(p);
      if s.jong < 0 && CHO_TO_JONG[t.cho] >= 0 {
        HandOver(t.cho);
        assert x == 0 && s2' == s2 && y == cp && [] + [y] == [y];
      } else {
        assert x == cp && s1 == State(t.cho, -1, -1) && s2' == s2 && y == 0 && [x] + [] == [x];
      }
    }
    var o := (if x != 0 then [x] else []) + (if y != 0 then [y] else []);
    assert o == out && Run(s, [a, b]) == (s2', o);
    if t.last >= 0 {
      var c := ChoKey(t.last);
      RunOne(s2, c);
      assert KeysOf(t) == [a, b] + [c];
      RunTwice(s, [a, b], [c]);
      assert Typed(s2, CodeOf(c)) == (Waiting(t), 0) && out + [] == out;
    } else {
      assert KeysOf(t) == [a, b];
    }
  }

  function CodepointsOf(t: seq<Syllable>): (r: seq<nat>)
    requires AllTypable(t)
    ensures |r| == |t|
  {
    if t == [] then [] else [CodepointOf(t[0])] + CodepointsOf(t[1..])
  }

  lemma {:induction false} TypeAll(s: State, out: seq<int>, t: seq<Syllable>)
    requires AllTypable(t)
    requires (s == EMPTY && out == []) || exists p: Syllable :: Typable(p) && s == Waiting(p) && out == [CodepointOf(p)]
    ensures forall i :: 0 <= i < |KeysFor(t)| ==> IsJamo(KeysFor(t)[i])
    ensures var (e, cps) := Run(s, KeysFor(t));
      cps + (if Flushed(e) != 0 then [Flushed(e)] else []) == out + CodepointsOf(t)
    decreases |t|
  {
    hide KeysOf, IsJamo;
    if t == [] {
      assert out + CodepointsOf(t) == out;
    } else {
      TypeOne(s, out, t[0]);
      TypeAll(Waiting(t[0]), [CodepointOf(t[0])], t[1..]);
      RunTwice(s, KeysOf(t[0]), KeysFor(t[1..]));
    }
  }

  /** For any text of typable syllables: the keys in order and a flush give its code points, each once. */
  lemma TypingRoundTrip(t: seq<Syllable>)
    requires AllTypable(t)
    ensures forall i :: 0 <= i < |KeysFor(t)| ==> IsJamo(KeysFor(t)[i])
    ensures var (e, cps) := Run(EMPTY, KeysFor(t));
      cps + (if Flushed(e) != 0 then [Flushed(e)] else []) == CodepointsOf(t)
  {
    TypeAll(EMPTY, [], t);
    assert [] + CodepointsOf(t) == CodepointsOf(t);
  }

  /** The same through the input method itself. */
  method TypeText(t: seq<Syllable>) returns (cps: seq<int>)
    requires AllTypable(t)
    ensures cps == CodepointsOf(t)
  {
    hide KeyCode, Run, Typed, KeysFor, CodepointsOf;
    TypingRoundTrip(t);
    var ime := new Ime();
    ime.Toggle();
    cps := [];
    var keys := KeysFor(t);
    ghost var (e, all) := Run(EMPTY, keys);
    assert keys[0..] == keys;
    assert [] + all == all;
    for k := 0 to |keys|
      invariant ime.active && fresh(ime) && Run(ime.Now(), keys[k..]).0 == e && cps + Run(ime.Now(), keys[k..]).1 == all
    {
      RunStep(ime.Now(), keys, k);
      KeysAreLow(t, k);
      var cp := ime.Input(keys[k].scancode, keys[k].shift);
      if cp != 0 {
        cps := cps + [cp];
      }
    }
    RunEnd(ime.Now(), keys);
    assert cps == all;
    var cp := ime.Flush();
    if cp != 0 {
      cps := cps + [cp];
    } else {
      assert all + [] == all;
    }
  }

  lemma RunStep(s: State, keys: seq<Key>, k: nat)
    requires k < |keys| && forall i :: 0 <= i < |keys| ==> IsJamo(keys[i])
    ensures CodeOf(keys[k]) < 19 || 0x40 <= CodeOf(keys[k]) < 0x55
    ensures var (s1, cp) := Typed(s, CodeOf(keys[k]));
      Run(s, keys[k..]) == (Run(s1, keys[k + 1..]).0, (if cp != 0 then [cp] else []) + Run(s1, keys[k + 1..]).1)
  {
    hide Typed, KeyCode;
    KeyCodes(keys[k].scancode, keys[k].shift);
    assert IsJamo(keys[k]);
    assert keys[k..][1..] == keys[k + 1..];
  }

  lemma RunEnd(s: State, keys: seq<Key>)
    ensures Run(s, keys[|keys|..]) == (s, [])
  {
  }

  lemma {:induction false} KeysAreLow(t: seq<Syllable>, k: nat)
    requires AllTypable(t) && k < |KeysFor(t)|
    ensures KeysFor(t)[k].scancode < 0x38
    decreases |t|
  {
    hide ChoKey, JungKey;
    if k >= |KeysOf(t[0])| {
      KeysAreLow(t[1..], k - |KeysOf(t[0])|);
    }
  }

  // ---- UTF-8

  type byte = x: int | 0 <= x < 256 witness 0

  /** unicode_to_utf8 of any 32-bit value; the top byte is cut to eight bits. */
  function Encode(cp: nat): (b: seq<byte>)
    ensures 1 <= |b| <= 4
  {
    if cp < 0x80 then [cp]
    else if cp < 0x800 then [0xc0 + cp / 64, 0x80 + cp % 64]
    else if cp < 0x1_0000 then [0xe0 + cp / 4096, 0x80 + cp / 64 % 64, 0x80 + cp % 64]
    else [0xf0 + cp / 0x4_0000 % 16, 0x80 + cp / 4096 % 64, 0x80 + cp / 64 % 64, 0x80 + cp % 64]
  }

  /** Writes the encoding and a terminator; returns the length. */
  method UnicodeToUtf8(cp: nat, buf: array<byte>) returns (n: nat)
    requires buf.Length >= 5
    modifies buf
    ensures n == |Encode(cp)| && buf[..n] == Encode(cp) && buf[n] == 0
  {
    if cp < 0x80 {
      buf[0], buf[1] := cp, 0;
      return 1;
    } else if cp < 0x800 {
      buf[0], buf[1], buf[2] := 0xc0 + cp / 64, 0x80 + cp % 64, 0;
      return 2;
    } else if cp < 0x1_0000 {
      buf[0], buf[1], buf[2], buf[3] := 0xe0 + cp / 4096, 0x80 + cp / 64 % 64, 0x80 + cp % 64, 0;
      return 3;
    } else {
      buf[0], buf[1], buf[2], buf[3], buf[4] := 0xf0 + cp / 0x4_0000 % 16, 0x80 + cp / 4096 % 64, 0x80 + cp / 64 % 64, 0x80 + cp % 64, 0;
      return 4;
    }
  }

  /** The decoder between two bytes: how many continuation bytes it waits for, and the bits so far. */
  datatype Utf8 = Utf8(state: nat, codepoint: nat)

  /** One byte: the next state, and the code point to be shown, if the byte completes one. */
  function Decoded(d: Utf8, b: byte): (r: (Utf8, seq<nat>))
    ensures r.0.state == 0 <==> |r.1| == 1
    ensures |r.1| <= 1
  {
    if d.state == 0 then
      if b < 0x80 then (Utf8(0, b), [b])
      else if 0xc0 <= b < 0xe0 then (Utf8(1, b % 32), [])
      else if 0xe0 <= b < 0xf0 then (Utf8(2, b % 16), [])
      else if 0xf0 <= b < 0xf8 then (Utf8(3, b % 8), [])
      else (Utf8(0, 0x3f), [0x3f])
    else if 0x80 <= b < 0xc0 then
      var cp := d.codepoint * 64 % 0x1_0000_0000 + b % 64;
      (Utf8(d.state - 1, cp), if d.state - 1 > 0 then [] else [cp])
    else (Utf8(0, 0x3f), [0x3f])
  }

  class Decoder {
    var state: nat
    var codepoint: nat

    constructor ()
      ensures state == 0
    {
      state, codepoint := 0, 0;
    }

    /** The decoder at the top of lkputchar; shown says whether the character goes on to be drawn. */
    method PutByte(b: byte) returns (shown: bool, cp: nat)
      modifies this
      ensures (Utf8(state, codepoint), if shown then [cp] else []) == Decoded(old(Utf8(state, codepoint)), b)
    {
      if state == 0 {
        if b < 0x80 {
          codepoint, state := b, 0;
        } else if b / 0x20 == 6 {
          codepoint, state := b % 32, 1;
          return false, 0;
        } else if b / 0x10 == 14 {
          codepoint, state := b % 16, 2;
          return false, 0;
        } else if b / 8 == 30 {
          codepoint, state := b % 8, 3;
          return false, 0;
        } else {
          codepoint := 0x3f;
        }
      } else {
        if b / 0x40 == 2 {
          codepoint := codepoint * 64 % 0x1_0000_0000 + b % 64;
          state := state - 1;
          if state > 0 {
            return false, 0;
          }
        } else {
          state := 0;
          codepoint := 0x3f;
        }
      }
      return true, codepoint;
    }
  }

  function DecodeAll(d: Utf8, bytes: seq<byte>): (Utf8, seq<nat>)
    decreases |bytes|
  {
    if bytes == [] then (d, [])
    else
      var (e, cps) := Decoded(d, bytes[0]);
      var (f, rest) := DecodeAll(e, bytes[1..]);
      (f, cps + rest)
  }

  /** Below 2^21 the decoder gives back what has been encoded, and is ready for the next character. */
  lemma DecodeOne(d: Utf8, cp: nat, rest: seq<byte>)
    requires d.state == 0 && cp < 0x20_0000
    ensures var (f, cps) := DecodeAll(Utf8(0, cp), rest);
      DecodeAll(d, Encode(cp) + rest) == (f, [cp] + cps)
  {
    hide DecodeAll, Encode;
    if cp < 0x80 {
      DecodeStep(d, cp, rest);
      OneByte(cp);
    } else if cp < 0x800 {
      DecodeTwo(d, cp, rest);
    } else if cp < 0x1_0000 {
      DecodeThree(d, cp, rest);
    } else {
      DecodeFour(d, cp, rest);
    }
  }

  lemma OneByte(cp: nat)
    requires cp < 0x80
    ensures Encode(cp) == [cp]
  {
  }

  lemma Continue(k: nat, x: nat, y: nat)
    requires 0 < k && x < 0x400_0000 && y < 64
    ensures Decoded(Utf8(k, x), 0x80 + y) == (Utf8(k - 1, x * 64 + y), if k - 1 > 0 then [] else [x * 64 + y])
  {
  }

  lemma Lead(d: Utf8, x: nat)
    requires d.state == 0
    ensures x < 32 ==> Decoded(d, 0xc0 + x) == (Utf8(1, x), [])
    ensures x < 16 ==> Decoded(d, 0xe0 + x) == (Utf8(2, x), [])
    ensures x < 8 ==> Decoded(d, 0xf0 + x) == (Utf8(3, x), [])
  {
  }

  lemma DecodeTwo(d: Utf8, cp: nat, rest: seq<byte>)
    requires d.state == 0 && 0x80 <= cp < 0x800
    ensures var (f, cps) := DecodeAll(Utf8(0, cp), rest); DecodeAll(d, Encode(cp) + rest) == (f, [cp] + cps)
  {
    hide DecodeAll, Decoded;
    var x, y := cp / 64, cp % 64;
    var b0: byte, b1: byte := 0xc0 + x, 0x80 + y;
    Lead(d, x);
    Continue(1, x, y);
    DecodeStep(d, b0, [b1] + rest);
    DecodeStep(Utf8(1, x), b1, rest);
    assert Encode(cp) + rest == [b0] + ([b1] + rest);
  }

  lemma DecodeThree(d: Utf8, cp: nat, rest: seq<byte>)
    requires d.state == 0 && 0x800 <= cp < 0x1_0000
    ensures var (f, cps) := DecodeAll(Utf8(0, cp), rest); DecodeAll(d, Encode(cp) + rest) == (f, [cp] + cps)
  {
    hide DecodeAll, Decoded;
    Regroup(cp);
    var x, y, z := cp / 4096, cp / 64 % 64, cp % 64;
    var b0: byte, b1: byte, b2: byte := 0xe0 + x, 0x80 + y, 0x80 + z;
    Lead(d, x);
    Continue(2, x, y);
    Continue(1, cp / 64, z);
    DecodeStep(d, b0, [b1] + ([b2] + rest));
    DecodeStep(Utf8(2, x), b1, [b2] + rest);
    DecodeStep(Utf8(1, cp / 64), b2, rest);
    assert Encode(cp) + rest == [b0] + ([b1] + ([b2] + rest));
  }

  lemma DecodeFour(d: Utf8, cp: nat, rest: seq<byte>)
    requires d.state == 0 && 0x1_0000 <= cp < 0x20_0000
    ensures var (f, cps) := DecodeAll(Utf8(0, cp), rest); DecodeAll(d, Encode(cp) + rest) == (f, [cp] + cps)
  {
    hide DecodeAll, Decoded;
    Regroup(cp);
    var w, x, y, z := cp / 0x4_0000, cp / 4096 % 64, cp / 64 % 64, cp % 64;
    var b0: byte, b1: byte, b2: byte, b3: byte := 0xf0 + w, 0x80 + x, 0x80 + y, 0x80 + z;
    Lead(d, w);
    Continue(3, w, x);
    Continue(2, cp / 4096, y);
    Continue(1, cp / 64, z);
    DecodeStep(d, b0, [b1] + ([b2] + ([b3] + rest)));
    DecodeStep(Utf8(3, w), b1, [b2] + ([b3] + rest));
    DecodeStep(Utf8(2, cp / 4096), b2, [b3] + rest);
    DecodeStep(Utf8(1, cp / 64), b3, rest);
    assert Encode(cp) + rest == [b0] + ([b1] + ([b2] + ([b3] + rest)));
  }

  /** Six bits at a time. */
  lemma Regroup(cp: nat)
    ensures cp / 0x4_0000 * 64 + cp / 4096 % 64 == cp / 4096
    ensures cp / 4096 * 64 + cp / 64 % 64 == cp / 64
    ensures cp / 64 * 64 + cp % 64 == cp
  {
  }

  lemma DecodeStep(d: Utf8, b: byte, rest: seq<byte>)
    ensures var (e, cps) := Decoded(d, b);
      var (f, more) := DecodeAll(e, rest);
      DecodeAll(d, [b] + rest) == (f, cps + more)
    ensures forall more: seq<nat> :: [] + more == more
  {
    hide Decoded;
    assert ([b] + rest)[1..] == rest;
  }

  function EncodeAll(cps: seq<nat>): seq<byte> {
    if cps == [] then [] else Encode(cps[0]) + EncodeAll(cps[1..])
  }

  lemma {:induction false} DecodeText(d: Utf8, cps: seq<nat>)
    requires d.state == 0 && forall i :: 0 <= i < |cps| ==> cps[i] < 0x20_0000
    ensures DecodeAll(d, EncodeAll(cps)).1 == cps && DecodeAll(d, EncodeAll(cps)).0.state == 0
    decreases |cps|
  {
    hide Encode;
    if cps != [] {
      DecodeOne(d, cps[0], EncodeAll(cps[1..]));
      DecodeText(Utf8(0, cps[0]), cps[1..]);
    }
  }

  /** Every code point the decoder shows has at most 21 bits. */
  lemma {:induction false} ShownIsShort(d: Utf8, bytes: seq<byte>)
    requires d.state <= 3 && BitsFit(d)
    ensures forall i :: 0 <= i < |DecodeAll(d, bytes).1| ==> DecodeAll(d, bytes).1[i] < 0x20_0000
    decreases |bytes|
  {
    if bytes != [] {
      ShownIsShort(Decoded(d, bytes[0]).0, bytes[1..]);
    }
  }

  /** The bits collected leave room for those to come. */
  predicate BitsFit(d: Utf8) {
    d.codepoint < if d.state == 3 then 8 else if d.state == 2 then 0x200 else if d.state == 1 then 0x8000 else 0x20_0000
  }

  /** The round trip of one value holds exactly below 2^21: what the encoder cuts off is lost. */
  lemma EncodingIsExact(cp: nat)
    requires cp < 0x1_0000_0000
    ensures DecodeAll(Utf8(0, 0), Encode(cp)).1 == [cp] <==> cp < 0x20_0000
  {
    hide Encode;
    if cp < 0x20_0000 {
      DecodeOne(Utf8(0, 0), cp, []);
      assert Encode(cp) + [] == Encode(cp) && [cp] + [] == [cp];
      assert DecodeAll(Utf8(0, cp), []) == (Utf8(0, cp), []);
    } else {
      ShownIsShort(Utf8(0, 0), Encode(cp));
      assert [cp][0] == cp;
    }
  }

  lemma {:induction false} SyllablesAreShort(t: seq<Syllable>)
    requires AllTypable(t)
    ensures forall i :: 0 <= i < |CodepointsOf(t)| ==> 0xac00 <= CodepointsOf(t)[i] < 0xd7a4
  {
    if t != [] {
      SyllablesAreShort(t[1..]);
    }
  }

  /** From the keys to the screen: what is typed, encoded and decoded is what was meant. */
  lemma KeysToScreen(t: seq<Syllable>)
    requires AllTypable(t)
    ensures forall i :: 0 <= i < |KeysFor(t)| ==> IsJamo(KeysFor(t)[i])
    ensures var (e, cps) := Run(EMPTY, KeysFor(t));
      cps + (if Flushed(e) != 0 then [Flushed(e)] else []) == CodepointsOf(t) == DecodeAll(Utf8(0, 0), EncodeAll(CodepointsOf(t))).1
  {
    hide Run, KeysFor, CodepointsOf, Encode;
    TypingRoundTrip(t);
    SyllablesAreShort(t);
    DecodeText(Utf8(0, 0), CodepointsOf(t));
  }
}
