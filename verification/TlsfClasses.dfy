// The size classes of the two-level segregated fit allocator: which list a free block goes to,
// and from which list on a request is searched for.
module TlsfClasses {
  const SL_INDEX_BITS: nat := 4
  const SL_CLASS_COUNT: nat := 16
  const FL_INDEX_SHIFT: nat := 4
  const FL_INDEX_COUNT: nat := 21
  const CLASS_COUNT: nat := 336
  const TLSF_BLOCK_MIN: nat := 16
  const UINT_MOD: nat := 0x1_0000_0000

  function Pow2(n: nat): (r: nat)
    ensures r > 0
  {
    if n == 0 then 1 else 2 * Pow2(n - 1)
  }

  lemma {:induction false} Pow2Monotone(m: nat, n: nat)
    requires m <= n
    ensures Pow2(m) <= Pow2(n)
    decreases n
  {
    if m < n {
      Pow2Monotone(m, n - 1);
    }
  }

  lemma Doubled(m: nat, n: nat)
    ensures m < n ==> 2 * Pow2(m) <= Pow2(n)
  {
    if m < n {
      Pow2Monotone(m + 1, n);
    }
  }

  /** The number of the highest bit set. */
  function Bsr(x: nat): (r: nat)
    requires x > 0
    ensures Pow2(r) <= x < 2 * Pow2(r)
  {
    if x == 1 then 0 else 1 + Bsr(x / 2)
  }

  lemma BsrIs(x: nat, r: nat)
    requires x > 0 && Pow2(r) <= x < 2 * Pow2(r)
    ensures Bsr(x) == r
  {
    Doubled(Bsr(x), r);
    Doubled(r, Bsr(x));
  }

  lemma BsrMonotone(x: nat, y: nat)
    requires 0 < x <= y
    ensures Bsr(x) <= Bsr(y)
  {
    Doubled(Bsr(y), Bsr(x));
  }

  /** Below 2^n the highest bit is below n. */
  lemma BsrBelow(x: nat, n: nat)
    requires 0 < x < Pow2(n)
    ensures Bsr(x) < n
  {
    if n <= Bsr(x) {
      Pow2Monotone(n, Bsr(x));
    }
  }

  lemma BsrReaches(x: nat, n: nat)
    requires Pow2(n) <= x
    ensures n <= Bsr(x)
  {
    if Bsr(x) < n {
      Doubled(Bsr(x), n);
    }
  }

  lemma BsrAtLeastFour(sz: nat)
    requires sz >= TLSF_BLOCK_MIN
    ensures Bsr(sz) >= 4
  {
    BsrMonotone(16, sz);
    assert Pow2(4) == 16;
    BsrIs(16, 4);
  }

  // ---- The maps

  /** The floor map: first- and second-level index of the list a block of sz bytes goes to. */
  function MapInsert(sz: nat): (r: (nat, nat))
    requires sz >= TLSF_BLOCK_MIN
  {
    BsrAtLeastFour(sz);
    var msb := Bsr(sz);
    (msb - FL_INDEX_SHIFT, sz / Pow2(msb - SL_INDEX_BITS) % SL_CLASS_COUNT)
  }

  /** The ceiling map: where the search for sz bytes starts. */
  function MapSearch(sz: nat): (nat, nat)
    requires sz >= TLSF_BLOCK_MIN
  {
    var shift := Bsr(sz) - SL_INDEX_BITS;
    MapInsert(if shift > 0 then sz + (Pow2(shift) - 1) else sz)
  }

  /** Classes numbered in the order the search visits them. */
  function Number(c: (nat, nat)): nat { 16 * c.0 + c.1 }

  function ClassOf(sz: nat): nat
    requires sz >= TLSF_BLOCK_MIN
  {
    Number(MapInsert(sz))
  }

  lemma Sixteen(k: nat)
    ensures Pow2(k + 4) == 16 * Pow2(k)
  {
    assert Pow2(k + 4) == 2 * Pow2(k + 3) == 4 * Pow2(k + 2) == 8 * Pow2(k + 1) == 16 * Pow2(k);
  }

  // Products and quotients by a variable, kept apart from the rest of the arithmetic.

  function Times(q: nat, u: nat): nat { q * u }

  function Quo(x: nat, u: nat): nat
    requires u > 0
  {
    x / u
  }

  lemma TimesLess(p: nat, q: nat, u: nat)
    ensures p < q ==> Times(p, u) + u <= Times(q, u)
  {
    if p < q {
      var d := q - p;
      assert (p + d) * u == p * u + d * u;
      assert d * u >= u;
    }
  }

  lemma TimesLiteral(u: nat)
    ensures Times(0, u) == 0 && Times(15, u) == 15 * u && Times(16, u) == 16 * u && Times(31, u) == 31 * u && Times(32, u) == 32 * u
  {
  }

  lemma QuoIs(x: nat, u: nat, q: nat)
    requires u > 0
    ensures q == Quo(x, u) <==> Times(q, u) <= x < Times(q, u) + u
  {
    var d := x / u;
    assert x == Times(d, u) + x % u;
    hide Times;
    TimesLess(q, d, u);
    TimesLess(d, q, u);
  }

  /** Width of the class of sz, and the smallest size in it. */
  function Unit(sz: nat): (u: nat)
    requires sz >= TLSF_BLOCK_MIN
    ensures u > 0 && 16 * u <= sz < 32 * u
  {
    hide Bsr;
    BsrAtLeastFour(sz);
    var k: nat := Bsr(sz) - 4;
    Sixteen(k);
    Pow2(k)
  }

  function Floor(sz: nat): nat
    requires sz >= TLSF_BLOCK_MIN
  {
    Times(Quo(sz, Unit(sz)), Unit(sz))
  }

  lemma ClassIs(sz: nat)
    requires sz >= TLSF_BLOCK_MIN
    ensures var fl := Bsr(sz) - 4;
      fl >= 0 && Unit(sz) == Pow2(fl) && 16 <= Quo(sz, Unit(sz)) < 32
      && MapInsert(sz) == (fl, Quo(sz, Unit(sz)) - 16) && ClassOf(sz) == 16 * fl + Quo(sz, Unit(sz)) - 16
  {
    hide Pow2, Bsr;
    BsrAtLeastFour(sz);
    QuoBounds(sz, Unit(sz));
  }

  lemma QuoBounds(x: nat, u: nat)
    requires u > 0 && 16 * u <= x < 32 * u
    ensures 16 <= Quo(x, u) < 32
  {
    hide Times, Quo;
    var q := Quo(x, u);
    QuoIs(x, u, q);
    TimesLess(q, 16, u);
    TimesLess(31, q, u);
    TimesLess(31, 32, u);
    TimesLiteral(u);
  }

  /** Exactly the blocks below 32 MB fit the table of lists, and the two levels are the digits of the number. */
  lemma ClassInTable(sz: nat)
    requires TLSF_BLOCK_MIN <= sz
    ensures var (fl, sl) := MapInsert(sz);
      && sl < SL_CLASS_COUNT && (fl < FL_INDEX_COUNT <==> sz < 0x200_0000)
      && (sz < 0x200_0000 ==> ClassOf(sz) < CLASS_COUNT && ClassOf(sz) / 16 == fl && ClassOf(sz) % 16 == sl)
  {
    hide Pow2, Bsr, Quo, Unit, MapInsert;
    ClassIs(sz);
    assert Pow2(25) == 0x200_0000 by {
      Sixteen(1);
      Sixteen(5);
      Sixteen(9);
      Sixteen(13);
      Sixteen(17);
      Sixteen(21);
      PowerOfZero();
      PowerStep(0);
    }
    if sz < 0x200_0000 {
      BsrBelow(sz, 25);
    } else {
      BsrReaches(sz, 25);
    }
  }

  /** The floor map against its meaning: a class holds the sizes from its floor up to the next one's. */
  lemma ClassAtLeast(s: nat, t: nat)
    requires s >= TLSF_BLOCK_MIN && t >= TLSF_BLOCK_MIN
    ensures ClassOf(s) >= ClassOf(t) <==> s >= Floor(t)
    ensures Floor(t) <= t
  {
    hide Pow2, Bsr, Times, Quo, Unit, MapInsert;
    ClassIs(s);
    ClassIs(t);
    var u, q, p := Unit(t), Quo(t, Unit(t)), Quo(s, Unit(s));
    QuoIs(t, u, q);
    QuoIs(s, Unit(s), p);
    TimesLess(15, q, u);
    TimesLess(q, 32, u);
    TimesLiteral(u);
    Sixteen(Bsr(t) - 4);
    Sixteen(Bsr(s) - 4);
    if Bsr(s) == Bsr(t) {
      TimesLess(p, q, u);
      TimesLess(q, p, u);
    } else if s < t {
      BsrMonotone(s, t);
      Doubled(Bsr(s), Bsr(t));
    } else {
      BsrMonotone(t, s);
    }
  }

  lemma FloorMonotone(s: nat, t: nat)
    requires TLSF_BLOCK_MIN <= s <= t
    ensures ClassOf(s) <= ClassOf(t)
  {
    ClassAtLeast(t, s);
  }

  /** The request rounded up to the width of its class. */
  function SearchSize(n: nat): nat
    requires n >= TLSF_BLOCK_MIN
  {
    Times(Quo(n + Unit(n) - 1, Unit(n)), Unit(n))
  }

  /** Rounding up covers the request and costs less than a sixteenth. */
  lemma SearchSizeIsGoodFit(n: nat)
    requires n >= TLSF_BLOCK_MIN
    ensures n <= SearchSize(n) && 16 * (SearchSize(n) - n) < n
  {
    hide Times, Quo, Unit;
    var u := Unit(n);
    QuoIs(n + u - 1, u, Quo(n + u - 1, u));
  }

  /** The ceiling map is the floor map of the size plus all but one of its class's width. */
  lemma SearchIsFloor(n: nat)
    requires n >= TLSF_BLOCK_MIN
    ensures MapSearch(n) == MapInsert(n + Unit(n) - 1)
  {
    hide Pow2, Bsr, Times, Quo, Unit, MapInsert;
    ClassIs(n);
    PowerOfZero();
  }

  /** The ceiling map against its meaning: the classes searched are those whose blocks all reach the rounded size. */
  lemma SearchIff(n: nat, s: nat)
    requires n >= TLSF_BLOCK_MIN && s >= TLSF_BLOCK_MIN
    ensures ClassOf(s) >= Number(MapSearch(n)) <==> s >= SearchSize(n)
  {
    hide Pow2, Bsr, Times, Quo, Unit, MapInsert;
    SearchIsFloor(n);
    var t := n + Unit(n) - 1;
    ClassAtLeast(s, t);
    assert Floor(t) == SearchSize(n) by {
      FloorOfSearch(n);
    }
  }

  /** Requests of up to 16 MB are searched for within the table. */
  lemma SearchInTable(n: nat)
    requires TLSF_BLOCK_MIN <= n <= 0x100_0000
    ensures var (fl, sl) := MapSearch(n);
      fl < FL_INDEX_COUNT && sl < SL_CLASS_COUNT
  {
    hide Unit, MapInsert, MapSearch;
    SearchIsFloor(n);
    ClassInTable(n + Unit(n) - 1);
  }

  lemma PowerOfZero()
    ensures Pow2(0) == 1
  {
  }

  lemma FloorOfSearch(n: nat)
    requires n >= TLSF_BLOCK_MIN
    ensures Floor(n + Unit(n) - 1) == SearchSize(n)
  {
    hide Pow2, Bsr, Times, Quo, Unit, MapInsert;
    ClassIs(n);
    var u := Unit(n);
    var t := n + u - 1;
    ClassIs(t);
    Sixteen(Bsr(n) - 4);
    if t < 32 * u {
      BsrIs(t, Bsr(n));
    } else {
      PowerStep(Bsr(n));
      BsrIs(t, Bsr(n) + 1);
      PowerStep(Bsr(n) - 4);
      assert Unit(t) == 2 * u;
      QuoIs(t, 2 * u, 16);
      QuoIs(t, u, 32);
      TimesLiteral(u);
      TimesLiteral(2 * u);
    }
  }

  lemma PowerStep(n: nat)
    ensures Pow2(n + 1) == 2 * Pow2(n)
  {
  }

  // ---- The request

  /** Aligned up in 32-bit arithmetic, with the minimum enforced. */
  function Request(size: nat): (n: nat)
    ensures n % 4 == 0 && n >= TLSF_BLOCK_MIN && n < UINT_MOD
  {
    var r := (size + 3) % UINT_MOD / 4 * 4;
    if r < TLSF_BLOCK_MIN then TLSF_BLOCK_MIN else r
  }

  /** The request is covered exactly when aligning it does not wrap around. */
  lemma RequestCovers(size: nat)
    requires size < UINT_MOD
    ensures size <= Request(size) <==> size <= UINT_MOD - 4
    ensures size <= UINT_MOD - 4 ==> Request(size) < size + 4 || Request(size) == TLSF_BLOCK_MIN
    ensures Request(Request(size)) == Request(size)
  {
  }
}
