// What the printf and scanf families of the SDK mean, on whole texts: the unbounded rendering of a
// format, the values a format reads from an input, and the round trip between the two.
module StdioText {
  type Text = seq<char>

  const WORD_MOD: nat := 0x1_0000_0000
  const MAX_WIDTH: nat := 0x7fff_ffff

  /** An argument: a 32-bit word or a string. */
  datatype Arg = Word(v: nat) | Str(s: Text)

  // ---- Numbers

  function DigitChar(d: nat, upper: bool): char
    requires d < 16
  {
    if d < 10 then '0' + d as char else if upper then 'A' + (d - 10) as char else 'a' + (d - 10) as char
  }

  function Quot(v: nat, base: nat): nat
    requires 2 <= base <= 16
  {
    v / base
  }

  function Last(v: nat, base: nat): (d: nat)
    requires 2 <= base <= 16
    ensures d < base
  {
    v % base
  }

  lemma QuotLess(v: nat, base: nat)
    requires 2 <= base <= 16 && 0 < v
    ensures Quot(v, base) < v
  {
  }

  /** The digits of v, most significant first; none for 0. */
  function DigitsOf(v: nat, base: nat, upper: bool): (t: Text)
    requires 2 <= base <= 16
    ensures forall i :: 0 <= i < |t| ==> IsDigitChar(t[i])
  {
    if v == 0 then []
    else
      QuotLess(v, base);
      DigitsOf(Quot(v, base), base, upper) + [DigitChar(Last(v, base), upper)]
  }

  predicate IsDigitChar(c: char) { '0' <= c <= '9' || 'a' <= c <= 'f' || 'A' <= c <= 'F' }

  function Number(v: nat, base: nat, upper: bool): (t: Text)
    requires 2 <= base <= 16
    ensures 0 < |t| && forall i :: 0 <= i < |t| ==> IsDigitChar(t[i])
  {
    if v == 0 then "0" else DigitsOf(v, base, upper)
  }

  function Repeat(c: char, n: int): (t: Text)
    ensures |t| == if n > 0 then n else 0
    ensures forall i :: 0 <= i < |t| ==> t[i] == c
  {
    if n <= 0 then [] else Repeat(c, n - 1) + [c]
  }

  // ---- Directives

  /** Flags and width of a conversion. */
  datatype Spec = Spec(left: bool, zero: bool, alt: bool, sign: bool, width: nat)

  /** Prefix and digits in a field of the given width. */
  function Field(s: Spec, prefix: Text, digits: Text): Text {
    var pad := s.width - |prefix| - |digits|;
    if s.left then prefix + digits + Repeat(' ', pad)
    else if s.zero then prefix + Repeat('0', pad) + digits
    else Repeat(' ', pad) + prefix + digits
  }

  predicate IsFlag(c: char) { c == '-' || c == '+' || c == '0' || c == '#' || c == ' ' }

  function WithFlag(s: Spec, c: char): Spec {
    match c
    case '-' => s.(left := true)
    case '+' => s.(sign := true)
    case '0' => s.(zero := true)
    case '#' => s.(alt := true)
    case _ => s
  }

  predicate IsDecimal(c: char) { '0' <= c <= '9' }

  /** The flags in front of f, and what follows them. */
  function ParseFlags(f: Text, s: Spec): (r: (Spec, Text))
    ensures |r.1| <= |f|
  {
    if f != [] && IsFlag(f[0]) then ParseFlags(f[1..], WithFlag(s, f[0])) else (s, f)
  }

  /** The number in front of f, on top of n. */
  function ParseWidth(f: Text, n: nat): (r: (nat, Text))
    ensures |r.1| <= |f|
  {
    if f != [] && IsDecimal(f[0]) then ParseWidth(f[1..], n * 10 + (f[0] as int - '0' as int)) else (n, f)
  }

  /** The precision, which is read and dropped. */
  function SkipPrecision(f: Text): (r: Text)
    ensures |r| <= |f|
  {
    if f != [] && f[0] == '.' then ParseWidth(f[1..], 0).1 else f
  }

  function SkipLength(f: Text): (r: Text)
    ensures |r| <= |f|
  {
    if f != [] && (f[0] == 'l' || f[0] == 'z' || f[0] == 'h') then f[1..] else f
  }

  const NO_FLAGS: Spec := Spec(false, false, false, false, 0)

  /** Everything between the percent sign and the conversion letter, and the rest from the letter on. */
  function ParseDirective(f: Text): (r: (Spec, Text))
    ensures |r.1| <= |f|
  {
    var (s, g) := ParseFlags(f, NO_FLAGS);
    var (w, h) := ParseWidth(g, 0);
    (s.(width := w), SkipLength(SkipPrecision(h)))
  }

  function WordAt(args: seq<Arg>): nat {
    if args != [] && args[0].Word? then args[0].v % WORD_MOD else 0
  }

  function StrAt(args: seq<Arg>): Text {
    if args != [] && args[0].Str? then args[0].s else "(null)"
  }

  function Rest<T>(s: seq<T>): seq<T> {
    if s == [] then [] else s[1..]
  }

  predicate IsConversion(c: char) {
    c == 'd' || c == 'i' || c == 'u' || c == 'o' || c == 'x' || c == 'X' || c == 's' || c == 'c' || c == 'p' || c == 'n'
  }

  /** The text of an integer conversion. */
  function IntegerText(c: char, s: Spec, v: nat): Text
    requires v < WORD_MOD
  {
    if c == 'd' || c == 'i' then
      if v < 0x8000_0000 then Field(s, if s.sign then "+" else "", Number(v, 10, false))
      else Field(s, "-", Number(WORD_MOD - v, 10, false))
    else if c == 'u' then Field(s, "", Number(v, 10, false))
    else if c == 'o' then
      var t := Number(v, 8, false);
      Field(s, if s.alt && t[0] != '0' then "0" else "", t)
    else
      Field(s, if s.alt then (if c == 'x' then "0x" else "0X") else "", Number(v, 16, c == 'X'))
  }

  predicate IsInteger(c: char) {
    c == 'd' || c == 'i' || c == 'u' || c == 'o' || c == 'x' || c == 'X'
  }

  /** The text of one conversion. */
  function ConversionText(c: char, s: Spec, args: seq<Arg>): Text {
    if IsInteger(c) then IntegerText(c, s, WordAt(args))
    else if c == 's' then Padded(s, StrAt(args))
    else if c == 'c' then Padded(s, [(WordAt(args) % 256) as char])
    else if c == 'p' then
      var t := Number(WordAt(args), 16, false);
      "0x" + Repeat('0', 8 - |t|) + t
    else if c == 'n' then ""
    else if c == '%' then "%"
    else ['%', c]
  }

  function Padded(s: Spec, t: Text): Text {
    if s.left then t + Repeat(' ', s.width - |t|) else Repeat(' ', s.width - |t|) + t
  }

  /** Every directive of the format has its conversion letter; a lone percent sign may end it. */
  predicate Complete(f: Text)
    decreases |f|
  {
    if f == [] then true
    else if f[0] != '%' then Complete(f[1..])
    else if |f| == 1 then true
    else
      var (s, g) := ParseDirective(f[1..]);
      g != [] && Complete(g[1..])
  }

  /** The rendering without any limit on its length. */
  function Render(f: Text, args: seq<Arg>): Text
    decreases |f|
  {
    if f == [] then []
    else if f[0] != '%' then [f[0]] + Render(f[1..], args)
    else if |f| == 1 then []
    else
      var (s, g) := ParseDirective(f[1..]);
      if g == [] then []
      else ConversionText(g[0], s, args) + Render(g[1..], if IsConversion(g[0]) then Rest(args) else args)
  }

  // ---- Reading

  predicate IsSpace(c: char) {
    c == ' ' || c == '\t' || c == '\n' || c == '\r' || c == '\U{0C}' || c == '\U{0B}'
  }

  function SkipSpaces(t: Text): (r: Text)
    ensures |r| <= |t|
  {
    if t != [] && IsSpace(t[0]) then SkipSpaces(t[1..]) else t
  }

  /** The value of a character as a digit; base or more if it is none. */
  function DigitValue(c: char, base: nat): nat {
    if '0' <= c <= '9' then c as int - '0' as int
    else if base == 16 && 'a' <= c <= 'f' then c as int - 'a' as int + 10
    else if base == 16 && 'A' <= c <= 'F' then c as int - 'A' as int + 10
    else 16
  }

  /** At most rem digits from the front of t, on top of n: the value, the number of digits, the rest. */
  function ReadDigits(t: Text, base: nat, rem: nat, n: nat, cnt: nat): (r: (nat, nat, Text))
    requires n < WORD_MOD
    ensures r.0 < WORD_MOD && |r.2| <= |t| && r.1 >= cnt
    decreases |t|
  {
    if rem == 0 || t == [] || DigitValue(t[0], base) >= base then (n, cnt, t)
    else ReadDigits(t[1..], base, rem - 1, (n * base + DigitValue(t[0], base)) % WORD_MOD, cnt + 1)
  }

  datatype Read = Read(v: nat, rest: Text) | ReadNothing(rest: Text)

  function BaseOf(c: char): nat {
    if c == 'o' then 8 else if c == 'x' || c == 'X' then 16 else 10
  }

  /** One character taken by the reader of digits. */
  lemma ReadOneDigit(t: Text, base: nat, rem: nat, n: nat, cnt: nat)
    requires n < WORD_MOD && t != []
    ensures rem == 0 || DigitValue(t[0], base) >= base ==> ReadDigits(t, base, rem, n, cnt) == (n, cnt, t)
    ensures rem > 0 && DigitValue(t[0], base) < base ==>
      ReadDigits(t, base, rem, n, cnt) == ReadDigits(t[1..], base, rem - 1, (n * base + DigitValue(t[0], base)) % WORD_MOD, cnt + 1)
  {
  }

  lemma ReadNoDigit(base: nat, rem: nat, n: nat, cnt: nat)
    requires n < WORD_MOD
    ensures ReadDigits([], base, rem, n, cnt) == (n, cnt, [])
  {
  }

  /** An integer behind the blanks: sign, base prefix for i, digits; width counts all of them. */
  function ReadInteger(c: char, t: Text, width: nat): (r: Read)
    requires t != [] && 0 < width
    ensures r.Read? ==> r.v < WORD_MOD
    ensures |r.rest| <= |t|
  {
    var signed := c == 'd' || c == 'i';
    var hasSign := signed && (t[0] == '-' || t[0] == '+');
    var t1 := if hasSign then t[1..] else t;
    var rem := if hasSign then width - 1 else width;
    var octal := c == 'i' && t1 != [] && t1[0] == '0' && rem > 0;
    var hex := octal && |t1| > 1 && (t1[1] == 'x' || t1[1] == 'X');
    var base := if hex then 16 else if octal then 8 else BaseOf(c);
    if hex && rem == 1 then ReadNothing(t1[2..])
    else
      var (n, cnt, rest) := ReadDigits(if hex then t1[2..] else t1, base, if hex then rem - 2 else rem, 0, 0);
      if cnt == 0 then ReadNothing(rest)
      else Read(if hasSign && t[0] == '-' then (WORD_MOD - n) % WORD_MOD else n, rest)
  }

  /** What a conversion stores: a word, a string, or for n the number of characters read. */
  datatype Value = WordValue(v: nat) | StrValue(s: Text) | CountValue(n: nat)

  /** The values stored, the number the call returns, and the input left over. */
  datatype Scanned = Scanned(values: seq<Value>, result: int, rest: Text)

  predicate IsFormatSpace(c: char) { c == ' ' || c == '\t' || c == '\n' || c == '\r' }

  /** What follows an optional star, whether there was one, and the width. */
  function ParseScan(f: Text): (r: (bool, nat, Text))
    ensures |r.2| <= |f|
  {
    var star := f != [] && f[0] == '*';
    var (w, g) := ParseWidth(if star then f[1..] else f, 0);
    (star, w, if g != [] && (g[0] == 'l' || g[0] == 'h') then g[1..] else g)
  }

  /** The characters up to the next blank, at most n of them. */
  function Word1(t: Text, n: nat): (k: nat)
    ensures k <= |t| && k <= n
  {
    if n == 0 || t == [] || IsFormatSpace(t[0]) then 0 else 1 + Word1(t[1..], n - 1)
  }

  function EndOfInput(done: nat): int { if done > 0 then done else -1 }

  /** vscan_core on the format f and the input t, of which total characters there were in all. */
  function Scan(f: Text, t: Text, total: nat, done: nat): Scanned
    requires |t| <= total
    decreases |f|, 0
  {
    if f == [] then Scanned([], done, t)
    else if IsFormatSpace(f[0]) then Scan(f[1..], SkipSpaces(t), total, done)
    else if f[0] != '%' then
      if t == [] || t[0] != f[0] then Scanned([], done, t) else Scan(f[1..], t[1..], total, done)
    else
      var (star, w, g) := ParseScan(f[1..]);
      if g == [] then Scanned([], done, t) else ScanConversion(g[0], g[1..], star, w, t, total, done)
  }

  function Stored(star: bool, v: Value): seq<Value> { if star then [] else [v] }

  function Counted(star: bool, done: nat): nat { if star then done else done + 1 }

  function ScanConversion(c: char, f: Text, star: bool, w: nat, t: Text, total: nat, done: nat): Scanned
    requires |t| <= total
    decreases |f|, 1
  {
    if IsInteger(c) then
      var t' := SkipSpaces(t);
      if t' == [] then Scanned([], EndOfInput(done), t')
      else
        match ReadInteger(c, t', if w > 0 then w else MAX_WIDTH)
        case ReadNothing(rest) => Scanned([], done, rest)
        case Read(v, rest) =>
          var r := Scan(f, rest, total, Counted(star, done));
          r.(values := Stored(star, WordValue(v)) + r.values)
    else if c == 's' then
      var t' := SkipSpaces(t);
      if t' == [] then Scanned([], EndOfInput(done), t')
      else
        var k := Word1(t', if w > 0 then w else MAX_WIDTH);
        if k == 0 then Scanned([], done, t')
        else
          var r := Scan(f, t'[k..], total, Counted(star, done));
          r.(values := Stored(star, StrValue(t'[..k])) + r.values)
    else if c == 'c' then
      var n := if w > 0 then w else 1;
      if t == [] then Scanned([], EndOfInput(done), t)
      else
        var k := if n <= |t| then n else |t|;
        var r := Scan(f, t[k..], total, Counted(star, done));
        r.(values := Stored(star, StrValue(t[..k])) + r.values)
    else if c == 'n' then
      var r := Scan(f, t, total, done);
      r.(values := Stored(star, CountValue(total - |t|)) + r.values)
    else if c == '%' then
      if t == [] || t[0] != '%' then Scanned([], done, t) else Scan(f, t[1..], total, done)
    else Scanned([], done, t)
  }

  /** The scan as a whole is what has been stored so far and then the scan r of the rest. */
  predicate Continues(all: Scanned, values: seq<Value>, r: Scanned) {
    all == r.(values := values + r.values)
  }

  lemma ContinuesWith(all: Scanned, values: seq<Value>, more: seq<Value>, r: Scanned)
    requires Continues(all, values, r.(values := more + r.values))
    ensures Continues(all, values + more, r)
  {
    assert values + (more + r.values) == values + more + r.values;
  }

  lemma ContinuesFromStart(all: Scanned)
    ensures Continues(all, [], all)
  {
    assert [] + all.values == all.values;
  }

  lemma ContinuesEnds(all: Scanned, values: seq<Value>, result: int, rest: Text)
    requires Continues(all, values, Scanned([], result, rest))
    ensures all == Scanned(values, result, rest)
  {
    assert values + [] == values;
  }

  lemma ScanSpace(f: Text, t: Text, total: nat, done: nat)
    requires |t| <= total && f != [] && IsFormatSpace(f[0])
    ensures Scan(f, t, total, done) == Scan(f[1..], SkipSpaces(t), total, done)
  {
  }

  lemma ScanLiteral(f: Text, t: Text, total: nat, done: nat)
    requires |t| <= total && f != [] && !IsFormatSpace(f[0]) && f[0] != '%'
    ensures Scan(f, t, total, done) == if t == [] || t[0] != f[0] then Scanned([], done, t) else Scan(f[1..], t[1..], total, done)
  {
  }

  lemma ScanPercent(f: Text, t: Text, total: nat, done: nat, star: bool, w: nat, g: Text)
    requires |t| <= total && f != [] && f[0] == '%' && ParseScan(f[1..]) == (star, w, g)
    ensures Scan(f, t, total, done) == if g == [] then Scanned([], done, t) else ScanConversion(g[0], g[1..], star, w, t, total, done)
  {
    hide ScanConversion, ParseScan;
  }

  // ---- Digits there and back

  /** A number read from the front of t, digit by digit. */
  function ValueOf(t: Text, base: nat, n: nat): nat
    requires n < WORD_MOD
  {
    if t == [] then n else ValueOf(t[1..], base, (n * base + DigitValue(t[0], base)) % WORD_MOD)
  }

  predicate AllDigits(t: Text, base: nat) {
    forall i :: 0 <= i < |t| ==> DigitValue(t[i], base) < base
  }

  /** The reader takes all digits and stops at the first character that is none. */
  lemma {:induction false} ReadsAllDigits(t: Text, rest: Text, base: nat, rem: nat, n: nat, cnt: nat)
    requires n < WORD_MOD && AllDigits(t, base) && |t| <= rem && (rest == [] || DigitValue(rest[0], base) >= base)
    ensures ReadDigits(t + rest, base, rem, n, cnt) == (ValueOf(t, base, n), cnt + |t|, rest)
    decreases |t|
  {
    if t == [] {
      assert t + rest == rest;
    } else {
      assert (t + rest)[1..] == t[1..] + rest && (t + rest)[0] == t[0];
      ReadsAllDigits(t[1..], rest, base, rem - 1, (n * base + DigitValue(t[0], base)) % WORD_MOD, cnt + 1);
    }
  }

  lemma {:induction false} ValueOfAppend(t: Text, c: char, base: nat, n: nat)
    requires n < WORD_MOD
    ensures ValueOf(t + [c], base, n) == (ValueOf(t, base, n) * base + DigitValue(c, base)) % WORD_MOD
    decreases |t|
  {
    if t == [] {
      assert t + [c] == [c];
      assert [c][1..] == [];
    } else {
      assert (t + [c])[1..] == t[1..] + [c];
      ValueOfAppend(t[1..], c, base, (n * base + DigitValue(t[0], base)) % WORD_MOD);
    }
  }

  lemma DigitBack(d: nat, upper: bool, base: nat)
    requires d < base && (base == 8 || base == 10 || base == 16)
    ensures DigitValue(DigitChar(d, upper), base) == d
  {
  }

  predicate IsBase(base: nat) { base == 8 || base == 10 || base == 16 }

  /** The digits of a word, read back, are the word. */
  lemma {:induction false} DigitsReadBack(v: nat, base: nat, upper: bool)
    requires v < WORD_MOD && IsBase(base)
    ensures AllDigits(DigitsOf(v, base, upper), base) && ValueOf(DigitsOf(v, base, upper), base, 0) == v
    decreases v
  {
    hide DigitValue, DigitChar, Quot, Last;
    if v > 0 {
      QuotLess(v, base);
      var q, r := Quot(v, base), Last(v, base);
      var t, c := DigitsOf(q, base, upper), DigitChar(r, upper);
      DigitsReadBack(q, base, upper);
      DigitBack(r, upper, base);
      ValueOfAppend(t, c, base, 0);
      DivMod(v, base);
      assert DigitsOf(v, base, upper) == t + [c];
    }
  }

  lemma DivMod(v: nat, base: nat)
    requires IsBase(base)
    ensures Quot(v, base) * base + Last(v, base) == v
    ensures v < WORD_MOD ==> (Quot(v, base) * base + Last(v, base)) % WORD_MOD == v
  {
  }

  lemma {:induction false} LeadingZeros(k: nat, t: Text, base: nat)
    requires IsBase(base)
    ensures ValueOf(Repeat('0', k) + t, base, 0) == ValueOf(t, base, 0)
    decreases k
  {
    hide DigitValue, Repeat;
    if k == 0 {
      assert Repeat('0', k) + t == t;
    } else {
      ZeroStep(base);
      ZerosInFront(k);
      assert (Repeat('0', k) + t)[1..] == Repeat('0', k - 1) + t && (Repeat('0', k) + t)[0] == '0';
      LeadingZeros(k - 1, t, base);
    }
  }

  lemma ZeroStep(base: nat)
    ensures DigitValue('0', base) == 0 && (0 * base + 0) % WORD_MOD == 0
  {
  }

  lemma {:induction false} ZerosInFront(k: nat)
    requires k > 0
    ensures Repeat('0', k)[1..] == Repeat('0', k - 1)
  {
  }

  /** A number with any zeros in front reads back as the number. */
  lemma NumberReadsBack(k: nat, v: nat, base: nat, upper: bool)
    requires v < WORD_MOD && IsBase(base)
    ensures var t := Repeat('0', k) + Number(v, base, upper);
      AllDigits(t, base) && ValueOf(t, base, 0) == v && 0 < |t|
  {
    DigitsReadBack(v, base, upper);
    LeadingZeros(k, Number(v, base, upper), base);
    if v == 0 {
      assert "0"[1..] == [];
    }
  }

  // ---- Formats written and parsed

  /** One integer to be printed: flags, width, conversion letter and value. */
  datatype Item = Item(flags: Text, width: nat, letter: char, v: nat)

  predicate ItemOk(it: Item) {
    && (forall i :: 0 <= i < |it.flags| ==> IsFlag(it.flags[i]))
    && (it.letter == 'd' || it.letter == 'u' || it.letter == 'o' || it.letter == 'x' || it.letter == 'X')
    && it.v < WORD_MOD
  }

  function FoldFlags(flags: Text, s: Spec): Spec
    requires forall i :: 0 <= i < |flags| ==> IsFlag(flags[i])
  {
    if flags == [] then s else FoldFlags(flags[1..], WithFlag(s, flags[0]))
  }

  function SpecOf(it: Item): Spec
    requires ItemOk(it)
  {
    FoldFlags(it.flags, NO_FLAGS).(width := it.width)
  }

  function WidthText(w: nat): Text { DigitsOf(w, 10, false) }

  function DirectiveText(it: Item): Text {
    "%" + (it.flags + (WidthText(it.width) + [it.letter]))
  }

  lemma {:induction false} FlagsParsed(flags: Text, g: Text, s: Spec)
    requires (forall i :: 0 <= i < |flags| ==> IsFlag(flags[i])) && (g == [] || !IsFlag(g[0]))
    ensures ParseFlags(flags + g, s) == (FoldFlags(flags, s), g)
    decreases |flags|
  {
    hide IsFlag, WithFlag;
    if flags == [] {
      assert flags + g == g;
    } else {
      assert (flags + g)[1..] == flags[1..] + g && (flags + g)[0] == flags[0];
      FlagsParsed(flags[1..], g, WithFlag(s, flags[0]));
    }
  }

  /** The width read digit by digit. */
  function WidthOf(t: Text, n: nat): nat
    requires forall i :: 0 <= i < |t| ==> IsDecimal(t[i])
  {
    if t == [] then n else assert IsDecimal(t[0]); WidthOf(t[1..], n * 10 + (t[0] as int - '0' as int))
  }

  lemma {:induction false} WidthAppend(t: Text, c: char, n: nat)
    requires (forall i :: 0 <= i < |t| ==> IsDecimal(t[i])) && IsDecimal(c)
    ensures WidthOf(t + [c], n) == WidthOf(t, n) * 10 + (c as int - '0' as int)
    decreases |t|
  {
    if t == [] {
      assert t + [c] == [c] && [c][1..] == [];
    } else {
      assert (t + [c])[1..] == t[1..] + [c] && IsDecimal(t[0]);
      WidthAppend(t[1..], c, n * 10 + (t[0] as int - '0' as int));
    }
  }

  lemma {:induction false} WidthReadsBack(w: nat)
    ensures forall i :: 0 <= i < |WidthText(w)| ==> IsDecimal(WidthText(w)[i])
    ensures WidthOf(WidthText(w), 0) == w
    ensures w > 0 ==> WidthText(w) != [] && WidthText(w)[0] != '0'
    decreases w
  {
    if w > 0 {
      WidthReadsBack(w / 10);
      assert Quot(w, 10) == w / 10 && Last(w, 10) == w % 10;
      WidthAppend(WidthText(w / 10), DigitChar(w % 10, false), 0);
    }
  }

  lemma {:induction false} WidthParsed(t: Text, g: Text, n: nat)
    requires (forall i :: 0 <= i < |t| ==> IsDecimal(t[i])) && (g == [] || !IsDecimal(g[0]))
    ensures ParseWidth(t + g, n) == (WidthOf(t, n), g)
    decreases |t|
  {
    if t == [] {
      assert t + g == g;
    } else {
      assert (t + g)[1..] == t[1..] + g && (t + g)[0] == t[0] && IsDecimal(t[0]);
      WidthParsed(t[1..], g, n * 10 + (t[0] as int - '0' as int));
    }
  }

  /** A directive is parsed as what it was written for, whatever follows it. */
  lemma DirectiveParsed(it: Item, rest: Text)
    requires ItemOk(it)
    ensures ParseDirective(it.flags + (WidthText(it.width) + [it.letter]) + rest) == (SpecOf(it), [it.letter] + rest)
  {
    hide ParseFlags, ParseWidth, FoldFlags, WidthText, WidthOf;
    var g := [it.letter] + rest;
    var h := WidthText(it.width) + g;
    WidthReadsBack(it.width);
    WidthIsNumber(it.width);
    assert it.flags + (WidthText(it.width) + [it.letter]) + rest == it.flags + h;
    FlagsParsed(it.flags, h, NO_FLAGS);
    WidthParsed(WidthText(it.width), g, 0);
  }

  lemma WidthIsNumber(w: nat)
    ensures w == 0 ==> WidthText(w) == []
  {
  }

  // ---- Lists of integers

  function PrintFormat(items: seq<Item>): Text {
    if items == [] then []
    else if |items| == 1 then DirectiveText(items[0])
    else DirectiveText(items[0]) + (" " + PrintFormat(items[1..]))
  }

  /** The letter that reads back what a directive prints: i where a base prefix has been printed. */
  function ScanLetter(it: Item): char
    requires ItemOk(it)
  {
    if SpecOf(it).alt && (it.letter == 'o' || it.letter == 'x' || it.letter == 'X') then 'i' else it.letter
  }

  predicate AllOk(items: seq<Item>) { forall i :: 0 <= i < |items| ==> ItemOk(items[i]) }

  function ScanFormat(items: seq<Item>): Text
    requires AllOk(items)
  {
    if items == [] then []
    else if |items| == 1 then ['%', ScanLetter(items[0])]
    else ['%', ScanLetter(items[0]), ' '] + ScanFormat(items[1..])
  }

  function ItemText(it: Item): Text
    requires ItemOk(it)
  {
    IntegerText(it.letter, SpecOf(it), it.v)
  }

  /** The fields, separated by blanks. */
  function Fields(items: seq<Item>): Text
    requires AllOk(items)
  {
    if items == [] then []
    else if |items| == 1 then ItemText(items[0])
    else ItemText(items[0]) + (" " + Fields(items[1..]))
  }

  function ArgsOf(items: seq<Item>): seq<Arg> {
    seq(|items|, i requires 0 <= i < |items| => Word(items[i].v))
  }

  function ValuesOf(items: seq<Item>): seq<Value> {
    seq(|items|, i requires 0 <= i < |items| => WordValue(items[i].v))
  }

  lemma RenderDirective(it: Item, rest: Text, args: seq<Arg>)
    requires ItemOk(it) && args != [] && args[0] == Word(it.v)
    ensures Render(DirectiveText(it) + rest, args) == ItemText(it) + Render(rest, args[1..])
  {
    hide IntegerText, ParseDirective, SpecOf, WidthText, Padded, Number, StrAt;
    var f := DirectiveText(it) + rest;
    var body := it.flags + (WidthText(it.width) + [it.letter]) + rest;
    assert f[0] == '%' && f[1..] == body;
    DirectiveParsed(it, rest);
    assert ([it.letter] + rest)[1..] == rest;
  }

  /** The format of a list renders as its fields. */
  lemma {:induction false} RenderIsFields(items: seq<Item>)
    requires AllOk(items)
    ensures Render(PrintFormat(items), ArgsOf(items)) == Fields(items)
    decreases |items|
  {
    hide ItemText, DirectiveText;
    if items != [] {
      var it, more, args := items[0], items[1..], ArgsOf(items);
      assert args[1..] == ArgsOf(more) && args[0] == Word(it.v);
      if |items| == 1 {
        RenderDirective(it, [], args);
        assert DirectiveText(it) + [] == DirectiveText(it) && ItemText(it) + [] == ItemText(it);
      } else {
        var rest := " " + PrintFormat(more);
        RenderDirective(it, rest, args);
        assert rest[1..] == PrintFormat(more);
        RenderIsFields(more);
      }
    }
  }

  lemma {:induction false} FormatIsComplete(items: seq<Item>)
    requires AllOk(items)
    ensures Complete(PrintFormat(items))
    decreases |items|
  {
    hide DirectiveText;
    if items != [] {
      if |items| == 1 {
        CompleteDirective(items[0], []);
        assert DirectiveText(items[0]) + [] == DirectiveText(items[0]);
      } else {
        var rest := " " + PrintFormat(items[1..]);
        FormatIsComplete(items[1..]);
        assert rest[1..] == PrintFormat(items[1..]);
        CompleteDirective(items[0], rest);
      }
    }
  }

  lemma CompleteDirective(it: Item, rest: Text)
    requires ItemOk(it) && Complete(rest)
    ensures Complete(DirectiveText(it) + rest)
  {
    hide ParseDirective, SpecOf, WidthText;
    var f := DirectiveText(it) + rest;
    var body := it.flags + (WidthText(it.width) + [it.letter]) + rest;
    assert f[0] == '%' && f[1..] == body;
    DirectiveParsed(it, rest);
    assert ([it.letter] + rest)[1..] == rest;
  }

  // ---- Reading a field back

  /** The end of a field: nothing, or a blank. */
  predicate Ends(t: Text) { t == [] || t[0] == ' ' }

  /** Digits with any zeros in front, up to the end of the field. */
  lemma DigitsRead(k: nat, v: nat, base: nat, upper: bool, tail: Text, rem: nat)
    requires v < WORD_MOD && IsBase(base) && Ends(tail) && k + |Number(v, base, upper)| <= rem
    ensures var t := Repeat('0', k) + Number(v, base, upper);
      0 < |t| && ReadDigits(t + tail, base, rem, 0, 0) == (v, |t|, tail)
  {
    hide Number, Repeat, ReadDigits, ValueOf;
    NumberReadsBack(k, v, base, upper);
    ReadsAllDigits(Repeat('0', k) + Number(v, base, upper), tail, base, rem, 0, 0);
  }

  /** The prefix a conversion prints in front of its digits. */
  function PrefixOf(it: Item): Text
    requires ItemOk(it)
  {
    var s := SpecOf(it);
    if it.letter == 'd' then (if it.v >= 0x8000_0000 then "-" else if s.sign then "+" else "")
    else if it.letter == 'o' then (if s.alt && it.v != 0 then "0" else "")
    else if it.letter == 'u' || !s.alt then ""
    else if it.letter == 'x' then "0x" else "0X"
  }

  function MagnitudeOf(it: Item): nat {
    if it.letter == 'd' && 0x8000_0000 <= it.v < WORD_MOD then WORD_MOD - it.v else it.v
  }

  function NumberOf(it: Item): Text {
    Number(MagnitudeOf(it), if it.letter == 'o' then 8 else if it.letter == 'd' || it.letter == 'u' then 10 else 16, it.letter == 'X')
  }

  lemma ItemTextIs(it: Item)
    requires ItemOk(it)
    ensures ItemText(it) == Field(SpecOf(it), PrefixOf(it), NumberOf(it))
  {
    hide Field, SpecOf;
    if it.letter == 'o' {
      LeadingDigit(it.v, 8);
    }
  }

  lemma {:induction false} LeadingDigit(v: nat, base: nat)
    requires IsBase(base)
    ensures v > 0 ==> DigitsOf(v, base, false) != [] && DigitsOf(v, base, false)[0] != '0'
    ensures Number(v, base, false)[0] == '0' <==> v == 0
    decreases v
  {
    hide DigitChar, Quot, Last;
    if v > 0 {
      var q, r := Quot(v, base), Last(v, base);
      QuotLess(v, base);
      LeadingDigit(q, base);
      DivMod(v, base);
      NotZero(q, r, base, v);
      assert DigitsOf(v, base, false) == DigitsOf(q, base, false) + [DigitChar(r, false)];
    }
  }

  lemma NotZero(q: nat, r: nat, base: nat, v: nat)
    requires q * base + r == v && 0 < v && r < 16
    ensures q == 0 ==> DigitChar(r, false) != '0'
  {
  }

  /** A field is blanks, prefix, zeros, digits and blanks, in this order. */
  lemma FieldShape(s: Spec, prefix: Text, digits: Text) returns (a: nat, z: nat, b: nat)
    ensures Field(s, prefix, digits) == Repeat(' ', a) + (prefix + (Repeat('0', z) + digits) + Repeat(' ', b))
  {
    var pad: nat := if s.width > |prefix| + |digits| then s.width - |prefix| - |digits| else 0;
    a, z, b := 0, 0, 0;
    if s.left {
      b := pad;
    } else if s.zero {
      z := pad;
    } else {
      a := pad;
    }
  }

  /** Reading prefix, zeros and digits with the right letter gives the value, up to the end of the field. */
  lemma ItemRead(it: Item, z: nat, tail: Text)
    requires ItemOk(it) && Ends(tail) && 2 + z + |NumberOf(it)| <= MAX_WIDTH
    ensures var t := PrefixOf(it) + (Repeat('0', z) + NumberOf(it));
      0 < |t| && !IsSpace(t[0]) && IsInteger(ScanLetter(it)) && ReadInteger(ScanLetter(it), t + tail, MAX_WIDTH) == Read(it.v, tail)
  {
    hide SpecOf, Number, Repeat, ReadDigits;
    var digits := Repeat('0', z) + NumberOf(it);
    var t := PrefixOf(it) + digits;
    assert t + tail == PrefixOf(it) + (digits + tail);
    if ScanLetter(it) != 'i' {
      PlainRead(it, z, tail);
    } else if it.letter == 'o' {
      OctalRead(it, z, tail);
    } else {
      HexRead(it, z, tail);
    }
  }

  lemma FirstDigit(z: nat, v: nat, base: nat, upper: bool)
    requires IsBase(base)
    ensures var t := Repeat('0', z) + Number(v, base, upper);
      0 < |t| && IsDigitChar(t[0]) && (forall i :: 0 <= i < |t| ==> IsDigitChar(t[i]))
  {
    hide Number, Repeat;
  }

  lemma PlainRead(it: Item, z: nat, tail: Text)
    requires ItemOk(it) && Ends(tail) && 2 + z + |NumberOf(it)| <= MAX_WIDTH && ScanLetter(it) != 'i'
    ensures var t := PrefixOf(it) + (Repeat('0', z) + NumberOf(it));
      0 < |t| && !IsSpace(t[0]) && IsInteger(ScanLetter(it)) && ReadInteger(ScanLetter(it), t + tail, MAX_WIDTH) == Read(it.v, tail)
  {
    hide SpecOf, Number, Repeat, ReadDigits;
    var base := if it.letter == 'o' then 8 else if it.letter == 'd' || it.letter == 'u' then 10 else 16;
    var digits := Repeat('0', z) + NumberOf(it);
    FirstDigit(z, MagnitudeOf(it), base, it.letter == 'X');
    var p := PrefixOf(it);
    assert |p| <= 1;
    DigitsRead(z, MagnitudeOf(it), base, it.letter == 'X', tail, MAX_WIDTH - |p|);
    var t := p + digits + tail;
    assert t == p + (digits + tail) && (p == [] ==> t == digits + tail);
    assert p != [] ==> t[1..] == digits + tail && t[0] == p[0];
    assert p == [] ==> t[0] == digits[0];
    assert t == p + (Repeat('0', z) + NumberOf(it)) + tail;
  }

  /** The prefix 0 makes i read octal; the zero counts as a digit. */
  lemma OctalRead(it: Item, z: nat, tail: Text)
    requires ItemOk(it) && Ends(tail) && 2 + z + |NumberOf(it)| <= MAX_WIDTH && ScanLetter(it) == 'i' && it.letter == 'o'
    ensures var t := PrefixOf(it) + (Repeat('0', z) + NumberOf(it));
      0 < |t| && !IsSpace(t[0]) && ReadInteger('i', t + tail, MAX_WIDTH) == Read(it.v, tail)
  {
    hide SpecOf, Repeat, ReadDigits, DigitsOf;
    var k := if it.v != 0 then z + 1 else z;
    var t := PrefixOf(it) + (Repeat('0', z) + NumberOf(it));
    OneMoreZero(z);
    assert t == Repeat('0', k) + NumberOf(it) by {
      assert Repeat('0', z + 1) == "0" + Repeat('0', z);
    }
    FirstDigit(k, it.v, 8, false);
    DigitsRead(k, it.v, 8, false, tail, MAX_WIDTH);
    assert t[0] == '0' && (t + tail)[0] == '0';
    assert |t + tail| > 1 ==> (t + tail)[1] == if |t| > 1 then t[1] else tail[0];
  }

  lemma {:induction false} OneMoreZero(z: nat)
    ensures Repeat('0', z + 1) == "0" + Repeat('0', z)
  {
    assert Repeat('0', z + 1)[0] == '0';
    ZerosInFront(z + 1);
  }

  /** The prefix 0x makes i read hexadecimal. */
  lemma HexRead(it: Item, z: nat, tail: Text)
    requires ItemOk(it) && Ends(tail) && 2 + z + |NumberOf(it)| <= MAX_WIDTH && ScanLetter(it) == 'i' && it.letter != 'o'
    ensures var t := PrefixOf(it) + (Repeat('0', z) + NumberOf(it));
      0 < |t| && !IsSpace(t[0]) && ReadInteger('i', t + tail, MAX_WIDTH) == Read(it.v, tail)
  {
    hide SpecOf, Number, Repeat, ReadDigits;
    var digits, p := Repeat('0', z) + NumberOf(it), PrefixOf(it);
    FirstDigit(z, it.v, 16, it.letter == 'X');
    DigitsRead(z, it.v, 16, it.letter == 'X', tail, MAX_WIDTH - 2);
    var t := p + digits + tail;
    assert t[2..] == digits + tail && t[0] == '0' && t[1] == p[1];
  }

  // ---- The round trip

  lemma {:induction false} SkipBlanks(n: nat, t: Text)
    ensures SkipSpaces(Repeat(' ', n) + t) == SkipSpaces(t)
    decreases n
  {
    if n == 0 {
      assert Repeat(' ', n) + t == t;
    } else {
      BlanksInFront(n);
      assert (Repeat(' ', n) + t)[1..] == Repeat(' ', n - 1) + t && (Repeat(' ', n) + t)[0] == ' ';
      SkipBlanks(n - 1, t);
    }
  }

  lemma {:induction false} BlanksInFront(n: nat)
    requires n > 0
    ensures Repeat(' ', n)[1..] == Repeat(' ', n - 1)
  {
  }

  lemma {:induction false} SkipTwice(t: Text)
    ensures SkipSpaces(SkipSpaces(t)) == SkipSpaces(t)
    decreases |t|
  {
    if t != [] && IsSpace(t[0]) {
      SkipTwice(t[1..]);
    }
  }

  /** One item scanned from an input that starts, behind blanks, with its field. */
  lemma ItemScanned(it: Item, t: Text, rest: Text, f: Text, total: nat, done: nat) returns (b: nat)
    requires ItemOk(it) && Ends(rest) && |t| <= total && |ItemText(it)| + 2 <= MAX_WIDTH
    requires SkipSpaces(t) == SkipSpaces(ItemText(it) + rest)
    ensures |Repeat(' ', b) + rest| <= total
    ensures var r := Scan(f, Repeat(' ', b) + rest, total, done + 1);
      ScanConversion(ScanLetter(it), f, false, 0, t, total, done) == r.(values := [WordValue(it.v)] + r.values)
  {
    hide Repeat, Scan, ReadInteger, ItemText, NumberOf, PrefixOf, SpecOf, Field, IsSpace;
    ItemTextIs(it);
    var a, z;
    a, z, b := FieldShape(SpecOf(it), PrefixOf(it), NumberOf(it));
    var body := PrefixOf(it) + (Repeat('0', z) + NumberOf(it));
    var tail := Repeat(' ', b) + rest;
    BlankEnds(b, rest);
    assert ItemText(it) + rest == Repeat(' ', a) + (body + tail);
    SkipBlanks(a, body + tail);
    assert |Repeat('0', z)| == z;
    ItemRead(it, z, tail);
    assert SkipSpaces(body + tail) == body + tail;
  }

  lemma BlankEnds(b: nat, rest: Text)
    requires Ends(rest)
    ensures Ends(Repeat(' ', b) + rest)
  {
  }

  /**
   * For any list of 32-bit words, printed with any flags and widths and read back with the matching
   * letters: all values come back, in order.
   */
  lemma {:induction false} FieldsScanned(items: seq<Item>, t: Text, total: nat, done: nat)
    requires AllOk(items) && |t| <= total && |Fields(items)| + 2 <= MAX_WIDTH
    requires SkipSpaces(t) == SkipSpaces(Fields(items))
    ensures var r := Scan(ScanFormat(items), t, total, done);
      r.values == ValuesOf(items) && r.result == done + |items|
    decreases |items|
  {
    hide ScanLetter, ItemText, Scan, ScanConversion, SkipSpaces, Repeat;
    if items == [] {
      ScanEnd(t, total, done);
    } else {
      var it, more := items[0], items[1..];
      var f := ScanFormat(items);
      ScanDirective(it, f[2..], t, total, done);
      assert ItemText(it) + [] == ItemText(it);
      if |items| == 1 {
        var b := ItemScanned(it, t, [], [], total, done);
        assert f == ['%', ScanLetter(it)] + [];
        ScanEnd(Repeat(' ', b) + [], total, done + 1);
      } else {
        var rest := " " + Fields(more);
        assert f == ['%', ScanLetter(it)] + (" " + ScanFormat(more));
        var b := ItemScanned(it, t, rest, " " + ScanFormat(more), total, done);
        var tail := Repeat(' ', b) + rest;
        NextField(b, Fields(more));
        ScanBlank(ScanFormat(more), tail, total, done + 1);
        FieldsScanned(more, SkipSpaces(tail), total, done + 1);
        assert ValuesOf(items) == [WordValue(it.v)] + ValuesOf(more);
      }
    }
  }

  lemma ScanBlank(f: Text, t: Text, total: nat, done: nat)
    requires |t| <= total
    ensures Scan(" " + f, t, total, done) == Scan(f, SkipSpaces(t), total, done)
  {
    assert (" " + f)[1..] == f;
  }

  lemma ScanEnd(t: Text, total: nat, done: nat)
    requires |t| <= total
    ensures Scan([], t, total, done) == Scanned([], done, t)
  {
  }

  lemma ScanDirective(it: Item, g: Text, t: Text, total: nat, done: nat)
    requires ItemOk(it) && |t| <= total
    ensures Scan(['%', ScanLetter(it)] + g, t, total, done) == ScanConversion(ScanLetter(it), g, false, 0, t, total, done)
  {
    hide ScanConversion, SpecOf;
    var f := ['%', ScanLetter(it)] + g;
    assert f[1..] == [ScanLetter(it)] + g && ([ScanLetter(it)] + g)[1..] == g;
  }

  lemma NextField(b: nat, next: Text)
    ensures SkipSpaces(SkipSpaces(Repeat(' ', b) + (" " + next))) == SkipSpaces(next)
  {
    SkipBlanks(b, " " + next);
    assert (" " + next)[1..] == next;
    SkipTwice(next);
  }

  /** printf and scanf: what has been printed is read back. */
  lemma RoundTrip(items: seq<Item>)
    requires AllOk(items) && |Fields(items)| + 2 <= MAX_WIDTH
    ensures var text := Render(PrintFormat(items), ArgsOf(items));
      var r := Scan(ScanFormat(items), text, |text|, 0);
      r.values == ValuesOf(items) && r.result == |items|
  {
    RenderIsFields(items);
    FieldsScanned(items, Fields(items), |Fields(items)|, 0);
  }
}
