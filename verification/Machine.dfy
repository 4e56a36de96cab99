// Bytes, 512-byte sectors and the little-endian 32-bit words stored in them.
module Machine {
  type byte = x: int | 0 <= x < 256 witness 0

  const WORD_MOD: nat := 0x1_0000_0000

  /** Unsigned 32-bit arithmetic wraps around. */
  function Wrap(x: int): (w: nat)
    ensures w < WORD_MOD
  {
    x % WORD_MOD
  }

  lemma WrapSum(x: int, d: int)
    ensures Wrap(Wrap(x) + d) == Wrap(x + d)
  {
  }

  lemma WrapSmall(x: nat)
    requires x < WORD_MOD
    ensures Wrap(x) == x
  {
  }

  type Sector = s: seq<byte> | |s| == 512 witness seq(512, _ => 0)

  /** The 32-bit word at index i, as a cast of the buffer to uint32_t* reads it. */
  function Word(s: Sector, i: nat): (w: nat)
    requires i < 128
    ensures w < WORD_MOD
  {
    var k := 4 * i;
    s[k] as int + 0x100 * s[k + 1] as int + 0x1_0000 * s[k + 2] as int + 0x100_0000 * s[k + 3] as int
  }

  function ByteOf(w: nat, k: nat): byte
    requires w < WORD_MOD
  {
    if k == 0 then w % 0x100
    else if k == 1 then w / 0x100 % 0x100
    else if k == 2 then w / 0x1_0000 % 0x100
    else w / 0x100_0000
  }

  lemma BytesOfWord(w: nat)
    requires w < WORD_MOD
    ensures ByteOf(w, 0) as int + 0x100 * ByteOf(w, 1) as int + 0x1_0000 * ByteOf(w, 2) as int + 0x100_0000 * ByteOf(w, 3) as int == w
  {
    assert w / 0x1_0000 == w / 0x100 / 0x100 && w / 0x100_0000 == w / 0x100 / 0x100 / 0x100;
  }

  /** The sector after the 32-bit word at index i has been overwritten. */
  function WithWord(s: Sector, i: nat, w: nat): Sector
    requires i < 128 && w < WORD_MOD
  {
    var k := 4 * i;
    s[k := ByteOf(w, 0)][k + 1 := ByteOf(w, 1)][k + 2 := ByteOf(w, 2)][k + 3 := ByteOf(w, 3)]
  }

  lemma WordWithWord(s: Sector, i: nat, w: nat, j: nat)
    requires i < 128 && j < 128 && w < WORD_MOD
    ensures Word(WithWord(s, i, w), j) == if j == i then w else Word(s, j)
  {
    hide ByteOf;
    BytesOfWord(w);
  }
}
