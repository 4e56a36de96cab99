// vsnprintf and vscan_core, with their cursors and buffers, against the texts of StdioText.
module Stdio {
  import opened StdioText

  function Min(a: nat, b: nat): nat { if a < b then a else b }

  /** A conversion n: the address its argument holds, and the number stored there. */
  datatype Store = Store(address: nat, value: nat)

  /** What the conversions n of a format store when n characters have been rendered before it, limit of which fit. */
  function Stores(f: Text, args: seq<Arg>, n: nat, limit: nat): seq<Store>
    decreases |f|
  {
    if |f| == 0 then []
    else if f[0] != '%' then Stores(f[1..], args, n + 1, limit)
    else if |f| == 1 then []
    else
      var (s, g) := ParseDirective(f[1..]);
      if g == [] then []
      else StoreOf(g[0], args, n, limit) + Stores(g[1..], ArgsBehind(g[0], args), n + |ConversionText(g[0], s, args)|, limit)
  }

  function StoreOf(c: char, args: seq<Arg>, n: nat, limit: nat): seq<Store> {
    if c == 'n' then [Store(WordAt(args), Min(n, limit))] else []
  }

  function ArgsBehind(c: char, args: seq<Arg>): seq<Arg> {
    if IsConversion(c) then Rest(args) else args
  }

  function Reversed(t: Text): (r: Text)
    ensures |r| == |t|
  {
    if t == [] then [] else Reversed(t[1..]) + [t[0]]
  }

  lemma {:induction false} ReversedSnoc(t: Text, c: char)
    ensures Reversed(t + [c]) == [c] + Reversed(t)
    decreases |t|
  {
    if t == [] {
      assert t + [c] == [c] && [c][1..] == [];
    } else {
      assert (t + [c])[1..] == t[1..] + [c];
      ReversedSnoc(t[1..], c);
    }
  }

  // ---- Printing

  /** The buffer of vsnprintf; out is what would have been written into one without end. */
  class Printer {
    const buf: array<char>
    const size: nat
    var pos: nat
    ghost var out: Text
    ghost const start: Text  // what the buffer held before the first character

    ghost predicate Valid()
      reads this, buf
    {
      && 0 < size <= buf.Length == |start|
      && pos == Min(|out|, size - 1) && buf[..pos] == out[..pos]
      && forall i :: pos <= i < buf.Length ==> buf[i] == start[i]
    }

    constructor (buf: array<char>, size: nat)
      requires 0 < size <= buf.Length
      ensures Valid() && out == [] && this.buf == buf && this.size == size && start == buf[..]
    {
      this.buf, this.size, pos, out, start := buf, size, 0, [], buf[..];
    }

    /** PUTC: characters beyond the buffer are dropped. */
    method Putc(c: char)
      requires Valid()
      modifies this, buf
      ensures Valid() && out == old(out) + [c]
    {
      if pos < size - 1 {
        buf[pos] := c;
        pos := pos + 1;
      }
      out := out + [c];
    }

    /** The terminator; the length is what the call returns. */
    method Finish() returns (n: nat)
      requires Valid()
      modifies buf
      ensures n == Min(|out|, size - 1) && n < buf.Length && buf[..n] == out[..n] && buf[n] == '\0'
      ensures |start| == buf.Length && forall i :: n < i < buf.Length ==> buf[i] == start[i]
    {
      buf[pos] := '\0';
      n := pos;
    }

    method PutPad(c: char, pad: int)
      requires Valid()
      modifies this, buf
      ensures Valid() && out == old(out) + Repeat(c, pad)
    {
      var n := 0;
      while n < pad
        invariant 0 <= n && (n <= pad || n == 0) && Valid() && out == old(out) + Repeat(c, n)
      {
        Putc(c);
        n := n + 1;
      }
    }

    method PutText(t: Text)
      requires Valid()
      modifies this, buf
      ensures Valid() && out == old(out) + t
    {
      for i := 0 to |t|
        invariant Valid() && out == old(out) + t[..i]
      {
        Putc(t[i]);
        assert t[..i + 1] == t[..i] + [t[i]];
      }
      assert t[..|t|] == t;
    }

    /** The digits of tmp, which are stored last first. */
    method PutDigits(tmp: array<char>, len: nat)
      requires Valid() && len <= tmp.Length && tmp != buf
      modifies this, buf
      ensures Valid() && out == old(out) + Reversed(tmp[..len])
    {
      var i := len;
      while i > 0
        invariant 0 <= i <= len && Valid() && old(out) + Reversed(tmp[..len]) == out + Reversed(tmp[..i])
      {
        i := i - 1;
        assert tmp[..i + 1] == tmp[..i] + [tmp[i]];
        ReversedSnoc(tmp[..i], tmp[i]);
        Putc(tmp[i]);
      }
    }

    /** EMIT_INT and its likes: prefix and digits in their field. */
    method PutField(s: Spec, prefix: Text, tmp: array<char>, len: nat)
      requires Valid() && len <= tmp.Length && tmp != buf
      modifies this, buf
      ensures Valid() && out == old(out) + Field(s, prefix, Reversed(tmp[..len]))
    {
      hide Reversed, Repeat, Valid;
      ghost var out0, digits := out, Reversed(tmp[..len]);
      var pad := s.width - |prefix| - len;
      if s.left {
        PutText(prefix);
        PutDigits(tmp, len);
        PutPad(' ', pad);
        assert out == out0 + (prefix + digits + Repeat(' ', pad));
      } else if s.zero {
        PutText(prefix);
        PutPad('0', pad);
        PutDigits(tmp, len);
        assert out == out0 + (prefix + Repeat('0', pad) + digits);
      } else {
        PutPad(' ', pad);
        PutText(prefix);
        PutDigits(tmp, len);
        assert out == out0 + (Repeat(' ', pad) + prefix + digits);
      }
    }

    method PutPadded(s: Spec, t: Text)
      requires Valid()
      modifies this, buf
      ensures Valid() && out == old(out) + Padded(s, t)
    {
      if !s.left {
        PutPad(' ', s.width - |t|);
      }
      PutText(t);
      if s.left {
        PutPad(' ', s.width - |t|);
      }
    }

    /** One conversion; arg is the argument it takes, if it takes one. */
    method PutConversion(c: char, s: Spec, args: seq<Arg>) returns (stored: seq<Store>)
      requires Valid()
      modifies this, buf
      ensures Valid() && out == old(out) + ConversionText(c, s, args)
      ensures stored == StoreOf(c, args, |old(out)|, size - 1)
    {
      stored := [];
      hide Reversed, Repeat, Field, Number, DigitsOf, Valid, IntegerText, Padded, StrAt;
      if IsInteger(c) {
        PutInteger(c, s, WordAt(args));
      } else if c == 's' {
        PutPadded(s, StrAt(args));
      } else if c == 'c' {
        PutPadded(s, [(WordAt(args) % 256) as char]);
      } else if c == 'p' {
        PutPointer(WordAt(args));
      } else if c == 'n' {
        stored := [Store(WordAt(args), pos)];
        PosIs();
      } else if c == '%' {
        Putc('%');
      } else {
        Putc('%');
        Putc(c);
      }
    }

    lemma PosIs()
      requires Valid()
      ensures pos == Min(|out|, size - 1)
    {
    }

    method PutPointer(v: nat)
      requires Valid() && v < WORD_MOD
      modifies this, buf
      ensures Valid() && out == old(out) + ("0x" + Repeat('0', 8 - |Number(v, 16, false)|) + Number(v, 16, false))
    {
      hide Reversed, Repeat, Number, DigitsOf, Valid;
      var tmp := new char[8];
      PutText("0x");
      var len := StoreDigits(tmp, v, 16, false);
      PutPad('0', 8 - len);
      PutDigits(tmp, len);
    }

    /** A directive whose first character behind the percent sign is at p; its letter is at q. */
    method PutDirective(fmt: Text, p: nat, args: seq<Arg>) returns (q: nat, stored: seq<Store>)
      requires Valid() && 0 < size && 0 < p < |fmt| && fmt[p - 1] == '%' && Complete(fmt[p - 1..])
      modifies this, buf
      ensures Valid() && p <= q < |fmt| && Complete(fmt[q + 1..])
      ensures old(out) + Render(fmt[p - 1..], args) == out + Render(fmt[q + 1..], ArgsBehind(fmt[q], args))
      ensures Stores(fmt[p - 1..], args, |old(out)|, size - 1) == stored + Stores(fmt[q + 1..], ArgsBehind(fmt[q], args), |out|, size - 1)
    {
      hide Render, Stores, StoreOf, Complete, ParseDirective, ConversionText, ArgsBehind, Valid;
      DropOne(fmt, p - 1);
      var s;
      s, q := ReadDirective(fmt, p);
      RenderConversion(fmt[p - 1..], args, s, fmt[q..], |out|, size - 1);
      DropOne(fmt, q);
      stored := PutConversion(fmt[q], s, args);
    }

    method PutInteger(c: char, s: Spec, v: nat)
      requires Valid() && IsInteger(c) && v < WORD_MOD
      modifies this, buf
      ensures Valid() && out == old(out) + IntegerText(c, s, v)
    {
      hide Reversed, Repeat, Field, Number, DigitsOf, Valid;
      var tmp := new char[22];
      if c == 'd' || c == 'i' {
        var prefix, magnitude := "", v;
        if v >= 0x8000_0000 {
          prefix, magnitude := "-", WORD_MOD - v;
        } else if s.sign {
          prefix := "+";
        }
        var len := StoreDigits(tmp, magnitude, 10, false);
        PutField(s, prefix, tmp, len);
      } else if c == 'u' {
        var len := StoreDigits(tmp, v, 10, false);
        PutField(s, "", tmp, len);
      } else if c == 'o' {
        var len := StoreDigits(tmp, v, 8, false);
        LastIsFirst(tmp[..len]);
        PutField(s, if s.alt && tmp[len - 1] != '0' then "0" else "", tmp, len);
      } else {
        var len := StoreDigits(tmp, v, 16, c == 'X');
        PutField(s, if s.alt then (if c == 'x' then "0x" else "0X") else "", tmp, len);
      }
    }
  }

  lemma {:induction false} LastIsFirst(t: Text)
    requires t != []
    ensures Reversed(t)[0] == t[|t| - 1]
  {
    assert t == t[..|t| - 1] + [t[|t| - 1]];
    ReversedSnoc(t[..|t| - 1], t[|t| - 1]);
  }

  function Pow8(n: nat): nat { if n == 0 then 1 else 8 * Pow8(n - 1) }

  lemma {:induction false} DigitsAreFew(v: nat, base: nat, upper: bool, n: nat)
    requires IsBase(base) && v < Pow8(n)
    ensures |DigitsOf(v, base, upper)| <= n
    decreases n
  {
    if v > 0 {
      DivLess8(v, base, Pow8(n - 1));
      DigitsAreFew(Quot(v, base), base, upper, n - 1);
    }
  }

  lemma DivLess8(v: nat, base: nat, p: nat)
    requires IsBase(base) && v < 8 * p
    ensures Quot(v, base) < p
  {
    if base == 8 {
    } else if base == 10 {
    } else {
    }
  }

  lemma {:induction false} HexDigitsAreFew(v: nat, upper: bool)
    requires v < WORD_MOD
    ensures |DigitsOf(v, 16, upper)| <= 8 && |DigitsOf(v, 8, upper)| <= 11 && |DigitsOf(v, 10, upper)| <= 11
  {
    assert Pow8(11) == 0x2_0000_0000 by {
      assert Pow8(5) == 32768;
      assert Pow8(10) == 0x4000_0000;
    }
    DigitsAreFew(v, 8, upper, 11);
    DigitsAreFew(v, 10, upper, 11);
    HexAreFew(v, upper, 8);
  }

  function Pow16(n: nat): nat { if n == 0 then 1 else 16 * Pow16(n - 1) }

  lemma {:induction false} HexAreFew(v: nat, upper: bool, n: nat)
    requires v < Pow16(n)
    ensures |DigitsOf(v, 16, upper)| <= n
    decreases n
  {
    if v > 0 {
      assert Quot(v, 16) == v / 16;
      HexAreFew(v / 16, upper, n - 1);
    }
  }

  /** The loops that fill tmp from the least significant digit on; its bound is never reached. */
  method StoreDigits(tmp: array<char>, v: nat, base: nat, upper: bool) returns (len: nat)
    requires v < WORD_MOD && IsBase(base) && (tmp.Length >= 11 || (tmp.Length >= 8 && base == 16))
    modifies tmp
    ensures 0 < len <= tmp.Length && Reversed(tmp[..len]) == Number(v, base, upper)
  {
    len := 0;
    hide DigitsOf, DigitChar, Reversed, Quot, Last;
    if v == 0 {
      tmp[0] := '0';
      assert tmp[..1] == "0";
      ReversedOne('0');
      return 1;
    }
    HexDigitsAreFew(v, upper);
    ReversedNone();
    var val: nat := v;
    ghost var all, stored: Text := DigitsOf(v, base, upper), [];
    while val > 0
      invariant len == |stored| <= |all| <= tmp.Length && tmp[..len] == stored
      invariant all == DigitsOf(val, base, upper) + Reversed(stored)
      decreases val
    {
      DigitMoved(all, val, base, upper, stored);
      tmp[len] := DigitChar(Last(val, base), upper);
      stored := stored + [DigitChar(Last(val, base), upper)];
      val := Quot(val, base);
      len := len + 1;
    }
    NoDigits(base, upper);
  }

  lemma DigitMoved(all: Text, val: nat, base: nat, upper: bool, stored: Text)
    requires val > 0 && IsBase(base) && all == DigitsOf(val, base, upper) + Reversed(stored)
    ensures Quot(val, base) < val && |stored| < |all|
    ensures all == DigitsOf(Quot(val, base), base, upper) + Reversed(stored + [DigitChar(Last(val, base), upper)])
  {
    hide DigitsOf, DigitChar, Reversed, Quot, Last;
    DigitsStep(val, base, upper);
    QuotLess(val, base);
    ReversedSnoc(stored, DigitChar(Last(val, base), upper));
    Glue(DigitsOf(Quot(val, base), base, upper), DigitChar(Last(val, base), upper), Reversed(stored));
  }

  lemma Glue(a: Text, c: char, r: Text)
    ensures a + [c] + r == a + ([c] + r) && |a + [c] + r| > |r|
  {
  }

  lemma ReversedOne(c: char)
    ensures Reversed([c]) == [c]
  {
    assert [c][1..] == [];
  }

  lemma ReversedNone()
    ensures Reversed([]) == []
  {
  }

  lemma NoDigits(base: nat, upper: bool)
    requires IsBase(base)
    ensures DigitsOf(0, base, upper) == []
  {
  }

  lemma DigitsStep(v: nat, base: nat, upper: bool)
    requires v > 0 && IsBase(base)
    ensures DigitsOf(v, base, upper) == DigitsOf(Quot(v, base), base, upper) + [DigitChar(Last(v, base), upper)]
  {
  }

  // ---- Directives

  /** The flags, the width and what is skipped behind them: everything up to the conversion letter. */
  method ReadDirective(fmt: Text, start: nat) returns (s: Spec, p: nat)
    requires start <= |fmt|
    ensures start <= p <= |fmt| && ParseDirective(fmt[start..]) == (s, fmt[p..])
  {
    hide WithFlag, IsFlag;
    p := start;
    s := NO_FLAGS;
    while p < |fmt| && IsFlag(fmt[p])
      invariant start <= p <= |fmt| && ParseFlags(fmt[start..], NO_FLAGS) == ParseFlags(fmt[p..], s)
    {
      assert fmt[p..][1..] == fmt[p + 1..];
      s := WithFlag(s, fmt[p]);
      p := p + 1;
    }
    var width;
    width, p := ReadNumber(fmt, p);
    s := s.(width := width);
    if p < |fmt| && fmt[p] == '.' {
      assert fmt[p..][1..] == fmt[p + 1..];
      var n;
      n, p := ReadNumber(fmt, p + 1);
    }
    if p < |fmt| && (fmt[p] == 'l' || fmt[p] == 'z' || fmt[p] == 'h') {
      assert fmt[p..][1..] == fmt[p + 1..];
      p := p + 1;
    }
  }

  method ReadNumber(fmt: Text, start: nat) returns (n: nat, p: nat)
    requires start <= |fmt|
    ensures start <= p <= |fmt| && ParseWidth(fmt[start..], 0) == (n, fmt[p..])
  {
    p, n := start, 0;
    while p < |fmt| && IsDecimal(fmt[p])
      invariant start <= p <= |fmt| && ParseWidth(fmt[start..], 0) == ParseWidth(fmt[p..], n)
    {
      assert fmt[p..][1..] == fmt[p + 1..];
      n := n * 10 + (fmt[p] as int - '0' as int);
      p := p + 1;
    }
  }

  /** The rest of a format or argument list behind its first element. */
  lemma DropOne<T>(s: seq<T>, p: nat)
    requires p < |s|
    ensures s[p..] != [] && s[p..][0] == s[p] && s[p..][1..] == s[p + 1..]
  {
  }

  lemma RenderLiteral(f: Text, args: seq<Arg>, n: nat, limit: nat)
    requires f != [] && f[0] != '%'
    ensures Render(f, args) == [f[0]] + Render(f[1..], args) && (Complete(f) ==> Complete(f[1..]))
    ensures Stores(f, args, n, limit) == Stores(f[1..], args, n + 1, limit)
  {
  }

  lemma RenderConversion(f: Text, args: seq<Arg>, s: Spec, g: Text, n: nat, limit: nat)
    requires |f| > 1 && f[0] == '%' && ParseDirective(f[1..]) == (s, g) && Complete(f)
    ensures g != [] && Complete(g[1..])
    ensures Render(f, args) == ConversionText(g[0], s, args) + Render(g[1..], ArgsBehind(g[0], args))
    ensures Stores(f, args, n, limit)
         == StoreOf(g[0], args, n, limit) + Stores(g[1..], ArgsBehind(g[0], args), n + |ConversionText(g[0], s, args)|, limit)
  {
    OneConversion(f, args, s, g, n, limit);
  }

  lemma RenderLone(args: seq<Arg>, n: nat, limit: nat)
    ensures Render("%", args) == [] && Render([], args) == []
    ensures Stores("%", args, n, limit) == [] && Stores([], args, n, limit) == []
  {
  }

  /**
   * vsnprintf: as much of the rendering as fits in size - 1 characters, a terminator, and nothing written behind it.
   * stores lists what the conversions n store, outside of the buffer.
   */
  method Vsnprintf(buf: array<char>, size: nat, fmt: Text, args: seq<Arg>) returns (n: nat, stores: seq<Store>)
    requires size <= buf.Length && Complete(fmt)
    modifies buf
    ensures size == 0 ==> n == 0 && stores == [] && buf[..] == old(buf[..])
    ensures size > 0 ==>
      var out := Render(fmt, args);
      n == Min(|out|, size - 1) && buf[..n] == out[..n] && buf[n] == '\0' && stores == Stores(fmt, args, 0, size - 1)
    ensures forall i :: n < i < buf.Length ==> buf[i] == old(buf[i])
  {
    hide Render, Stores, Written, Complete, ParseDirective, ConversionText, ArgsBehind, Printer.Valid, IsConversion;
    stores := [];
    if size == 0 {
      return 0, stores;
    }
    var printer := new Printer(buf, size);
    var p, a: nat := 0, 0;
    assert fmt[0..] == fmt && args[0..] == args;
    WrittenNone(fmt, args, size - 1);
    ghost var rest := fmt;
    while p < |fmt|
      invariant p <= |fmt| && a <= |args| && printer.Valid() && printer.buf == buf && printer.size == size && fresh(printer)
      invariant rest == fmt[p..] && Complete(rest) && Written(fmt, args, printer.out, stores, rest, args[a..], size - 1)
    {
      DropOne(fmt, p);
      if fmt[p] != '%' {
        WrittenLiteral(fmt, args, printer.out, stores, rest, args[a..], size - 1);
        printer.Putc(fmt[p]);
        p := p + 1;
        rest := fmt[p..];
        continue;
      }
      p := p + 1;
      if p == |fmt| {
        assert rest == "%";
        break;
      }
      ghost var out, before := printer.out, stores;
      var q, stored := printer.PutDirective(fmt, p, args[a..]);
      stores := stores + stored;
      WrittenOn(fmt, args, out, before, rest, args[a..], printer.out, stored, fmt[q + 1..], ArgsBehind(fmt[q], args[a..]), size - 1);
      RestOf(args, a, fmt[q]);
      if IsConversion(fmt[q]) {
        if a < |args| {
          a := a + 1;
        }
      }
      p := q + 1;
      rest := fmt[p..];
    }
    WrittenAll(fmt, args, printer.out, stores, rest, args[a..], size - 1);
    n := printer.Finish();
  }

  lemma RestOf(args: seq<Arg>, a: nat, c: char)
    requires a <= |args|
    ensures ArgsBehind(c, args[a..]) == if IsConversion(c) && a < |args| then args[a + 1..] else args[a..]
  {
  }

  /** What has been rendered and stored, up to the rest g of the format f. */
  ghost predicate Written(f: Text, args: seq<Arg>, out: Text, stores: seq<Store>, g: Text, left: seq<Arg>, limit: nat) {
    Render(f, args) == out + Render(g, left) && Stores(f, args, 0, limit) == stores + Stores(g, left, |out|, limit)
  }

  lemma WrittenNone(f: Text, args: seq<Arg>, limit: nat)
    ensures Written(f, args, [], [], f, args, limit)
  {
    hide Render, Stores;
    assert [] + Stores(f, args, 0, limit) == Stores(f, args, 0, limit);
  }

  lemma WrittenLiteral(f: Text, args: seq<Arg>, out: Text, stores: seq<Store>, g: Text, left: seq<Arg>, limit: nat)
    requires g != [] && g[0] != '%' && Complete(g) && Written(f, args, out, stores, g, left, limit)
    ensures Complete(g[1..]) && Written(f, args, out + [g[0]], stores, g[1..], left, limit)
  {
    hide Render, Stores, Complete;
    RenderLiteral(g, left, |out|, limit);
    assert out + ([g[0]] + Render(g[1..], left)) == out + [g[0]] + Render(g[1..], left);
  }

  lemma WrittenOn(f: Text, args: seq<Arg>, out: Text, stores: seq<Store>, g: Text, left: seq<Arg>, out': Text, stored: seq<Store>, g': Text, left': seq<Arg>, limit: nat)
    requires Written(f, args, out, stores, g, left, limit)
    requires out + Render(g, left) == out' + Render(g', left')
    requires Stores(g, left, |out|, limit) == stored + Stores(g', left', |out'|, limit)
    ensures Written(f, args, out', stores + stored, g', left', limit)
  {
    hide Render, Stores;
    Grouped(stores, stored, Stores(g', left', |out'|, limit));
  }

  lemma Grouped<T>(a: seq<T>, b: seq<T>, c: seq<T>)
    ensures a + b + c == a + (b + c)
  {
  }

  lemma WrittenAll(f: Text, args: seq<Arg>, out: Text, stores: seq<Store>, g: Text, left: seq<Arg>, limit: nat)
    requires Written(f, args, out, stores, g, left, limit) && (g == "" || g == "%")
    ensures Render(f, args) == out && Stores(f, args, 0, limit) == stores
  {
    RenderLone(left, |out|, limit);
  }

  // ---- What n stores

  /** Every directive of f has its letter, and f does not end in the middle of one. */
  predicate Closed(f: Text)
    decreases |f|
  {
    if f == [] then true
    else if f[0] != '%' then Closed(f[1..])
    else var (s, g) := ParseDirective(f[1..]); g != [] && Closed(g[1..])
  }

  /** The arguments that f leaves to what follows it. */
  function ArgsAfter(f: Text, args: seq<Arg>): seq<Arg>
    decreases |f|
  {
    if f == [] then args
    else if f[0] != '%' then ArgsAfter(f[1..], args)
    else var (s, g) := ParseDirective(f[1..]); if g == [] then args else ArgsAfter(g[1..], ArgsBehind(g[0], args))
  }

  lemma {:induction false} FlagsGoOn(f: Text, s: Spec, b: Text)
    requires ParseFlags(f, s).1 != []
    ensures ParseFlags(f + b, s) == (ParseFlags(f, s).0, ParseFlags(f, s).1 + b)
  {
    hide WithFlag;
    if IsFlag(f[0]) {
      assert (f + b)[1..] == f[1..] + b;
      FlagsGoOn(f[1..], WithFlag(s, f[0]), b);
    }
  }

  lemma {:induction false} WidthGoesOn(f: Text, n: nat, b: Text)
    requires ParseWidth(f, n).1 != []
    ensures ParseWidth(f + b, n) == (ParseWidth(f, n).0, ParseWidth(f, n).1 + b)
  {
    if IsDecimal(f[0]) {
      assert (f + b)[1..] == f[1..] + b;
      WidthGoesOn(f[1..], n * 10 + (f[0] as int - '0' as int), b);
    }
  }

  /** A directive that has its letter is read the same whatever follows. */
  lemma DirectiveGoesOn(f: Text, b: Text)
    requires ParseDirective(f).1 != []
    ensures ParseDirective(f + b) == (ParseDirective(f).0, ParseDirective(f).1 + b)
  {
    hide ParseFlags, ParseWidth;
    FlagsGoOn(f, NO_FLAGS, b);
    var g := ParseFlags(f, NO_FLAGS).1;
    WidthGoesOn(g, 0, b);
    var h := ParseWidth(g, 0).1;
    if h[0] == '.' {
      WidthGoesOn(h[1..], 0, b);
      assert (h + b)[1..] == h[1..] + b;
    }
    var k := SkipPrecision(h);
    assert (k + b)[1..] == k[1..] + b;
  }

  /** A format is rendered piece by piece. */
  lemma {:induction false} PieceByPiece(f: Text, b: Text, args: seq<Arg>, n: nat, limit: nat)
    requires Closed(f)
    ensures Render(f + b, args) == Render(f, args) + Render(b, ArgsAfter(f, args))
    ensures Stores(f + b, args, n, limit)
         == Stores(f, args, n, limit) + Stores(b, ArgsAfter(f, args), n + |Render(f, args)|, limit)
    decreases |f|
  {
    hide Render, Stores, ParseDirective, ConversionText, ArgsBehind, StoreOf, Complete;
    RenderLone(args, n, limit);
    if f == [] {
      assert f + b == b;
    } else {
      var w := f + b;
      assert w[0] == f[0] && w[1..] == f[1..] + b;
      if f[0] != '%' {
        RenderLiteral(f, args, n, limit);
        RenderLiteral(w, args, n, limit);
        PieceByPiece(f[1..], b, args, n + 1, limit);
        Grouped([f[0]], Render(f[1..], args), Render(b, ArgsAfter(f, args)));
      } else {
        var (s, g) := ParseDirective(f[1..]);
        var rest, len := ArgsBehind(g[0], args), n + |ConversionText(g[0], s, args)|;
        DirectiveGoesOn(f[1..], b);
        assert (g + b)[1..] == g[1..] + b;
        OneConversion(f, args, s, g, n, limit);
        OneConversion(w, args, s, g + b, n, limit);
        PieceByPiece(g[1..], b, rest, len, limit);
        Grouped(ConversionText(g[0], s, args), Render(g[1..], rest), Render(b, ArgsAfter(f, args)));
        Grouped(StoreOf(g[0], args, n, limit), Stores(g[1..], rest, len, limit), Stores(b, ArgsAfter(f, args), n + |Render(f, args)|, limit));
      }
    }
  }

  lemma OneConversion(f: Text, args: seq<Arg>, s: Spec, g: Text, n: nat, limit: nat)
    requires |f| > 1 && f[0] == '%' && ParseDirective(f[1..]) == (s, g) && g != []
    ensures Render(f, args) == ConversionText(g[0], s, args) + Render(g[1..], ArgsBehind(g[0], args))
    ensures Stores(f, args, n, limit)
         == StoreOf(g[0], args, n, limit) + Stores(g[1..], ArgsBehind(g[0], args), n + |ConversionText(g[0], s, args)|, limit)
  {
    hide ParseDirective, ConversionText;
  }

  /** A conversion n stores the length of what stands in front of it, as far as that fits in the buffer. */
  lemma StoreMeasures(f: Text, b: Text, args: seq<Arg>, limit: nat)
    requires Closed(f)
    ensures var left, len := ArgsAfter(f, args), |Render(f, args)|;
      Stores(f + ("%n" + b), args, 0, limit)
      == Stores(f, args, 0, limit) + ([Store(WordAt(left), Min(len, limit))] + Stores(b, Rest(left), len, limit))
  {
    hide Render, Stores, ConversionText;
    PieceByPiece(f, "%n" + b, args, 0, limit);
    DirectiveN(b);
    OneConversion("%n" + b, ArgsAfter(f, args), NO_FLAGS, "n" + b, |Render(f, args)|, limit);
    NoText(ArgsAfter(f, args));
  }

  lemma DirectiveN(b: Text)
    ensures ("%n" + b)[1..] == "n" + b && ("n" + b)[1..] == b && ParseDirective("n" + b) == (NO_FLAGS, "n" + b)
  {
  }

  lemma NoText(args: seq<Arg>)
    ensures ConversionText('n', NO_FLAGS, args) == ""
  {
    hide IntegerText, Padded;
  }

  // ---- Scanning

  /** The string source of the scanner, with its counter of characters read. */
  class Source {
    const str: Text
    var pos: nat
    var nread: nat

    ghost predicate Valid()
      reads this
    {
      pos <= |str| && nread == pos
    }

    /** The input that is left. */
    ghost function Left(): (t: Text)
      requires Valid()
      reads this
      ensures |t| <= |str|
    {
      str[pos..]
    }

    constructor (str: Text)
      ensures Valid() && this.str == str && Left() == str
    {
      this.str, pos, nread := str, 0, 0;
    }

    /** The next character, or -1 at the end. */
    method Getc() returns (c: int)
      requires Valid()
      modifies this
      ensures Valid() && c == (if old(Left()) == [] then -1 else old(Left())[0] as int)
      ensures Left() == (if old(Left()) == [] then [] else old(Left())[1..]) && pos == old(pos) + if c >= 0 then 1 else 0
    {
      if pos < |str| {
        c := str[pos] as int;
        pos := pos + 1;
        nread := nread + 1;
      } else {
        c := -1;
      }
    }

    /** Takes the character that has just been read back. */
    method Ungetc(c: int)
      requires Valid() && (c >= 0 ==> 0 < pos && str[pos - 1] as int == c)
      modifies this
      ensures Valid() && pos == old(pos) - (if c >= 0 then 1 else 0)
    {
      if c < 0 {
        return;
      }
      nread := nread - 1;
      pos := pos - 1;
    }

    method SkipWs()
      requires Valid()
      modifies this
      ensures Valid() && Left() == SkipSpaces(old(Left()))
    {
      while pos < |str|
        invariant Valid() && SkipSpaces(Left()) == SkipSpaces(old(Left()))
        decreases |str| - pos
      {
        ghost var was := Left();
        var c := Getc();
        if !(c == 32 || c == 9 || c == 10 || c == 13 || c == 12 || c == 11) {
          Ungetc(c);
          return;
        }
      }
    }

    /** The digits of an integer: value, their number, and everything behind them left in the source. */
    method Digits(base: nat, width: nat) returns (n: nat, cnt: nat)
      requires Valid()
      modifies this
      ensures Valid() && ReadDigits(old(Left()), base, width, 0, 0) == (n, cnt, Left()) && n < WORD_MOD
    {
      hide ReadDigits, DigitValue;
      n, cnt := 0, 0;
      var rem := width;
      ghost var t := Left();
      while rem > 0 && pos < |str|
        invariant Valid() && n < WORD_MOD && ReadDigits(Left(), base, rem, n, cnt) == ReadDigits(old(Left()), base, width, 0, 0)
        decreases rem
      {
        ReadOneDigit(Left(), base, rem, n, cnt);
        var c := Getc();
        var d := DigitValue(c as char, base);
        if d >= base {
          Ungetc(c);
          return;
        }
        n := (n * base + d) % WORD_MOD;
        cnt := cnt + 1;
        rem := rem - 1;
      }
      if pos == |str| {
        ReadNoDigit(base, rem, n, cnt);
      } else {
        ReadOneDigit(Left(), base, rem, n, cnt);
      }
    }

    /** A base prefix in front of digits read with i: 0x is taken, 0 is left to be the first digit. */
    method Prefix() returns (base: nat)
      requires Valid() && pos < |str| && str[pos] == '0'
      modifies this
      ensures Valid()
      ensures var t := old(Left());
        if |t| > 1 && (t[1] == 'x' || t[1] == 'X') then base == 16 && Left() == t[2..] else base == 8 && Left() == t
    {
      var c := Getc();
      var nx := Getc();
      if nx == 'x' as int || nx == 'X' as int {
        return 16;
      }
      Ungetc(nx);
      Ungetc(c);
      return 8;
    }

    /** Sign, base prefix and digits; ok says whether there was a digit. */
    method Integer(letter: char, width: nat) returns (ok: bool, v: nat)
      requires Valid() && Left() != [] && 0 < width
      modifies this
      ensures Valid()
      ensures ReadInteger(letter, old(Left()), width) == if ok then Read(v, Left()) else ReadNothing(Left())
    {
      hide ReadDigits;
      var signed := letter == 'd' || letter == 'i';
      var base, rem, neg := BaseOf(letter), width, false;
      if signed && (str[pos] == '-' || str[pos] == '+') {
        neg := str[pos] == '-';
        var c := Getc();
        rem := rem - 1;
      }
      if letter == 'i' && pos < |str| && str[pos] == '0' && rem > 0 {
        base := Prefix();
        if base == 16 {
          if rem == 1 {
            return false, 0;
          }
          rem := rem - 2;
        }
      }
      var n, cnt := Digits(base, rem);
      ok := cnt > 0;
      v := if neg then (WORD_MOD - n) % WORD_MOD else n;
    }

    /** The length of the word in front, of at most n characters; the word is taken. */
    method TakeWord(n: nat) returns (k: nat)
      requires Valid()
      modifies this
      ensures Valid() && k == Word1(old(Left()), n) && k <= |old(Left())| && Left() == old(Left())[k..]
    {
      k := 0;
      while k < n && pos < |str| && !IsFormatSpace(str[pos])
        invariant Valid() && k <= n && k <= |old(Left())| && Left() == old(Left())[k..]
        invariant Word1(old(Left()), n) == k + Word1(Left(), n - k)
      {
        var c := Getc();
        k := k + 1;
      }
    }

    /** What one conversion does: false ends the scan with the given result. */
    method Conversion(letter: char, star: bool, w: nat, done: nat, ghost f: Text) returns (go: bool, stored: seq<Value>, counts: bool, result: int)
      requires Valid()
      modifies this
      ensures Valid()
      ensures var r := ScanConversion(letter, f, star, w, old(Left()), |str|, done);
        if go then var next := Scan(f, Left(), |str|, if counts then done + 1 else done); r == next.(values := stored + next.values)
        else r == Scanned([], result, Left())
    {
      hide ReadInteger, Scan, SkipSpaces, Word1, IsSpace;
      go, stored, counts, result := true, [], !star, done;
      var width := if w > 0 then w else MAX_WIDTH;
      if IsInteger(letter) {
        SkipWs();
        if pos == |str| {
          return false, [], false, EndOfInput(done);
        }
        var ok, v := Integer(letter, width);
        if !ok {
          return false, [], false, done;
        }
        stored := Stored(star, WordValue(v));
      } else if letter == 's' {
        SkipWs();
        if pos == |str| {
          return false, [], false, EndOfInput(done);
        }
        ghost var t := Left();
        var start := pos;
        var k := TakeWord(width);
        if k == 0 {
          return false, [], false, done;
        }
        assert str[start..start + k] == t[..k];
        stored := Stored(star, StrValue(str[start..start + k]));
      } else if letter == 'c' {
        ghost var t := Left();
        var n, start := if w > 0 then w else 1, pos;
        if pos == |str| {
          return false, [], false, EndOfInput(done);
        }
        var k := 0;
        while k < n && pos < |str|
          invariant Valid() && k <= n && k <= |t| && pos == start + k && Left() == t[k..]
        {
          var c := Getc();
          k := k + 1;
        }
        assert str[start..start + k] == t[..k];
        stored := Stored(star, StrValue(str[start..start + k]));
      } else if letter == 'n' {
        stored, counts := Stored(star, CountValue(nread)), false;
      } else if letter == '%' {
        var c := Getc();
        if c != '%' as int {
          Ungetc(c);
          return false, [], false, done;
        }
        counts := false;
      } else {
        return false, [], false, done;
      }
    }

    /** vscan_core: the values stored, and the number the call returns. */
    method VscanCore(fmt: Text) returns (values: seq<Value>, result: int)
      requires Valid()
      modifies this
      ensures Valid() && Scan(fmt, old(Left()), |str|, 0) == Scanned(values, result, Left())
    {
      hide Scan, ScanConversion, SkipSpaces, Continues;
      values, result := [], 0;
      var done: nat := 0;
      var f: nat := 0;
      ghost var all := Scan(fmt, Left(), |str|, 0);
      assert fmt[0..] == fmt;
      ContinuesFromStart(all);
      while f < |fmt|
        invariant f <= |fmt| && Valid() && Continues(all, values, Scan(fmt[f..], Left(), |str|, done))
      {
        DropOne(fmt, f);
        ghost var t := Left();
        if IsFormatSpace(fmt[f]) {
          ScanSpace(fmt[f..], t, |str|, done);
          SkipWs();
          f := f + 1;
          continue;
        }
        if fmt[f] != '%' {
          ScanLiteral(fmt[f..], t, |str|, done);
          var c := Getc();
          if c != fmt[f] as int {
            Ungetc(c);
            ContinuesEnds(all, values, done, Left());
            return values, done;
          }
          f := f + 1;
          continue;
        }
        var star, w, g := ReadScanDirective(fmt, f + 1);
        ScanPercent(fmt[f..], t, |str|, done, star, w, fmt[g..]);
        if g == |fmt| {
          ContinuesEnds(all, values, done, Left());
          return values, done;
        }
        DropOne(fmt, g);
        var go, stored, counts;
        go, stored, counts, result := Conversion(fmt[g], star, w, done, fmt[g + 1..]);
        if !go {
          ContinuesEnds(all, values, result, Left());
          return;
        }
        if counts {
          done := done + 1;
        }
        ContinuesWith(all, values, stored, Scan(fmt[g + 1..], Left(), |str|, done));
        values := values + stored;
        f := g + 1;
      }
      assert fmt[f..] == [];
      ScanEnd(Left(), |str|, done);
      ContinuesEnds(all, values, done, Left());
      result := done;
    }
  }

  /** The star, the width and the length modifier of a scanning directive. */
  method ReadScanDirective(fmt: Text, start: nat) returns (star: bool, w: nat, g: nat)
    requires start <= |fmt|
    ensures start <= g <= |fmt| && ParseScan(fmt[start..]) == (star, w, fmt[g..])
  {
    star, g := false, start;
    if g < |fmt| && fmt[g] == '*' {
      star := true;
      assert fmt[g..][1..] == fmt[g + 1..];
      g := g + 1;
    }
    w, g := ReadNumber(fmt, g);
    if g < |fmt| && (fmt[g] == 'l' || fmt[g] == 'h') {
      assert fmt[g..][1..] == fmt[g + 1..];
      g := g + 1;
    }
  }

  /** Prints a list of integers into a buffer that is large enough and scans them back. */
  method PrintThenScan(items: seq<Item>, buf: array<char>) returns (values: seq<Value>, result: int)
    requires AllOk(items) && |Fields(items)| < buf.Length && |Fields(items)| + 2 <= MAX_WIDTH
    modifies buf
    ensures values == ValuesOf(items) && result == |items|
  {
    hide Scan, Render, PrintFormat, ScanFormat, Complete;
    RoundTrip(items);
    RenderIsFields(items);
    FormatIsComplete(items);
    var n, stores := Vsnprintf(buf, buf.Length, PrintFormat(items), ArgsOf(items));
    var text := buf[..n];
    assert text == Fields(items);
    var src := new Source(text);
    values, result := src.VscanCore(ScanFormat(items));
  }
}
