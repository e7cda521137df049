/**
 The format parser as the kernel runs it: pointer-walking loops, digits written
 backwards into a 32-byte scratch buffer, and a sink that truncates.
 */
module FormatPrinter {
  import opened Bytes
  import opened Numbers
  import opened NumberParsing
  import opened Format

  const SCRATCH := 32

  /** The truncating sink; `fed` is everything it was ever given. */
  class BufSink {
    const buf: array<char>
    var written: nat
    var dropped: nat
    ghost var fed: string

    ghost predicate Valid()
      reads this, buf
    {
      && buf.Length > 0
      && written == Min(|fed|, buf.Length - 1)
      && dropped == |fed| - written
      && buf[..written] == fed[..written]
    }

    constructor (buf: array<char>)
      requires buf.Length > 0
      ensures Valid() && this.buf == buf && fed == "" && written == dropped == 0
    {
      this.buf := buf;
      written, dropped, fed := 0, 0, "";
    }

    method Put(c: char)
      requires Valid()
      modifies this, buf
      ensures Valid() && fed == old(fed) + [c]
    {
      if written < buf.Length - 1 {
        buf[written] := c;
        written := written + 1;
      } else {
        dropped := dropped + 1;
      }
      fed := fed + [c];
      assert buf[..written] == fed[..written];
    }

    method PutAll(s: string)
      requires Valid()
      modifies this, buf
      ensures Valid() && fed == old(fed) + s
    {
      for i := 0 to |s|
        invariant Valid() && fed == old(fed) + s[..i]
      {
        Put(s[i]);
        assert s[..i + 1] == s[..i] + [s[i]];
      }
      assert s[..|s|] == s;
    }

    method PutPadding(c: char, pad: int)
      requires Valid()
      modifies this, buf
      ensures Valid() && fed == old(fed) + Fill(c, pad)
    {
      var done := 0;
      assert fed + Fill(c, 0) == fed;
      while done < pad
        invariant Valid() && 0 <= done <= (if pad < 0 then 0 else pad) && fed == old(fed) + Fill(c, done)
      {
        Put(c);
        done := done + 1;
      }
      assert Fill(c, done) == Fill(c, pad);
    }

    method PutPadded(body: string, width: nat, left: bool, zero: bool)
      requires Valid()
      modifies this, buf
      ensures Valid() && fed == old(fed) + Pad(body, width, left, zero)
    {
      var pad := width - |body|;
      var padChar := if zero && !left then '0' else ' ';
      if !left {
        PutPadding(padChar, pad);
      }
      PutAll(body);
      if left {
        PutPadding(' ', pad);
      }
    }
  }

  // ---------------------------------------------------------------------------
  // Reading a conversion
  // ---------------------------------------------------------------------------

  method ReadFlags(fmt: string, i: nat) returns (left: bool, zero: bool, f: nat)
    requires i <= |fmt|
    ensures f == FlagsEnd(fmt, i) && left == ('-' in fmt[i..f]) && zero == ('0' in fmt[i..f])
  {
    left, zero, f := false, false, i;
    while f < |fmt| && IsFlag(fmt[f])
      invariant i <= f <= |fmt| && FlagsEnd(fmt, f) == FlagsEnd(fmt, i)
      invariant left == ('-' in fmt[i..f]) && zero == ('0' in fmt[i..f])
    {
      assert fmt[i..f + 1] == fmt[i..f] + [fmt[f]];
      if fmt[f] == '-' {
        left := true;
      } else if fmt[f] == '0' {
        zero := true;
      }
      f := f + 1;
    }
  }

  method ReadNumber(fmt: string, i: nat) returns (n: nat, e: nat)
    requires i <= |fmt|
    ensures e == DigitEnd(fmt, i, 10) && n == Value(fmt[i..e], 10)
  {
    n, e := 0, i;
    while e < |fmt| && IsDigit(fmt[e])
      invariant i <= e <= |fmt| && DigitEnd(fmt, e, 10) == DigitEnd(fmt, i, 10)
      invariant n == Value(fmt[i..e], 10)
    {
      ValueNext(fmt, i, e, 10);
      n := n * 10 + (fmt[e] as int - '0' as int);
      e := e + 1;
    }
  }

  /** A width or precision: the amount as parsed, its value (a star's argument included), and the new cursors. */
  method ReadAmount(fmt: string, i: nat, args: Args, k0: nat) returns (n: int, e: nat, k: nat)
    requires i <= |fmt|
    ensures var (a, end) := ParseAmount(fmt, i);
            e == end && k == k0 + Star(a) && n == (if a == FromArg then AsInt(args(k0).bits) else a.n)
  {
    k := k0;
    if i < |fmt| && fmt[i] == '*' {
      n := AsInt(args(k).bits);
      e, k := i + 1, k + 1;
    } else {
      n, e := ReadNumber(fmt, i);
    }
  }

  method ReadLength(fmt: string, i: nat) returns (wide: bool, e: nat)
    requires i <= |fmt|
    ensures (if wide then Wide else Default, e) == ParseLength(fmt, i)
  {
    wide, e := false, i;
    if e < |fmt| && fmt[e] == 'l' {
      wide, e := true, e + 1;
      if e < |fmt| && fmt[e] == 'l' {
        e := e + 1;
      }
    } else if e < |fmt| && fmt[e] == 'h' {
      e := e + 1;
      if e < |fmt| && fmt[e] == 'h' {
        e := e + 1;
      }
    } else if e < |fmt| && (fmt[e] == 'z' || fmt[e] == 't' || fmt[e] == 'j') {
      wide, e := true, e + 1;
    }
  }

  method ReadWidth(fmt: string, i: nat, args: Args, k0: nat, left0: bool)
    returns (width: nat, left: bool, e: nat, k: nat)
    requires i <= |fmt|
    ensures var a := ParseAmount(fmt, i).0;
            (width, left) == WidthOf(a, left0, args, k0) && e == ParseAmount(fmt, i).1 && k == k0 + Star(a)
  {
    var n;
    n, e, k := ReadAmount(fmt, i, args, k0);
    left := left0;
    if n < 0 {
      left := true;
      n := -n;
    }
    width := n;
  }

  /** prec is -1 when there is none. */
  method ReadPrecision(fmt: string, i: nat, args: Args, k0: nat) returns (prec: int, e: nat, k: nat)
    requires i <= |fmt|
    ensures var a := ParsePrecision(fmt, i).0;
            && (if prec < 0 then None else Some(prec)) == PrecisionOf(a, args, k0)
            && e == ParsePrecision(fmt, i).1 && k == k0 + Star(a)
  {
    prec, e, k := -1, i, k0;
    if i < |fmt| && fmt[i] == '.' {
      prec, e, k := ReadAmount(fmt, i + 1, args, k0);
      if prec < 0 {
        prec := -1;
      }
    }
  }

  /** Everything between the percent sign and the conversion character. */
  method ReadConversion(fmt: string, i: nat, args: Args, k0: nat)
    returns (left: bool, zero: bool, width: nat, prec: int, wide: bool, at: nat, k: nat)
    requires i <= |fmt|
    ensures var s := ParseSpec(fmt, i);
            && at == SpecEnd(fmt, i) && zero == s.zero && (if wide then Wide else Default) == s.len
            && (width, left) == WidthOf(s.width, s.left, args, k0)
            && (if prec < 0 then None else Some(prec)) == PrecisionOf(s.prec, args, k0 + Star(s.width))
            && k == k0 + Star(s.width) + Star(s.prec)
  {
    var f, w, p, left0;
    left0, zero, f := ReadFlags(fmt, i);
    width, left, w, k := ReadWidth(fmt, f, args, k0, left0);
    prec, p, k := ReadPrecision(fmt, w, args, k);
    wide, at := ReadLength(fmt, p);
    assert ParseFields(fmt, f).at == at;
  }

  // ---------------------------------------------------------------------------
  // Digits in the scratch buffer
  // ---------------------------------------------------------------------------

  lemma Power8()
    ensures Power(8, 22) >= TWO64
  {
    assert Power(8, 4) == 4096;
    assert Power(8, 8) == 4096 * 4096;
    assert Power(8, 12) == 4096 * 4096 * 4096;
    assert Power(8, 16) == 4096 * 4096 * 4096 * 4096;
    assert Power(8, 20) == 4096 * 4096 * 4096 * 4096 * 4096;
  }

  lemma DigitsFit(v: u64, base: nat)
    requires 8 <= base <= 16
    ensures |Digits(v, base)| <= 22
  {
    Power8();
    DigitsLength(v, base, 8, 22);
  }

  function Cased(s: string, upper: bool): string {
    if upper then UpperText(s) else s
  }

  function Glyph(d: nat, upper: bool): char
    requires d < 16
  {
    if upper then Upper(DigitChar(d)) else DigitChar(d)
  }

  /** The lookup in the digit table. */
  method TableGlyph(d: nat, upper: bool) returns (c: char)
    requires d < 16
    ensures c == Glyph(d, upper)
  {
    TableIsDigitChar(d);
    c := if upper then Upper(LOWER[d]) else LOWER[d];
  }

  /** Write the digits backwards from the end of the scratch buffer; never past its front. */
  method DigitsBackwards(tmp: array<char>, value: u64, base: nat, upper: bool) returns (p: nat)
    requires tmp.Length == SCRATCH && 8 <= base <= 16
    modifies tmp
    ensures 1 <= p < SCRATCH - 1
    ensures tmp[p..SCRATCH - 1] == Cased(Digits(value, base), upper)
  {
    ghost var all := Cased(Digits(value, base), upper);
    DigitsFit(value, base);
    p := SCRATCH - 1;
    tmp[p] := NUL;
    var v: nat := value;
    assert all + tmp[p..SCRATCH - 1] == all;
    while true
      invariant 0 < p <= SCRATCH - 1 && |all| <= 22
      invariant Cased(Digits(v, base), upper) + tmp[p..SCRATCH - 1] == all
      decreases v
    {
      var q := PutDigit(tmp, p, v, base, upper);
      p := p - 1;
      if q == 0 {
        break;
      }
      assert |tmp[p..SCRATCH - 1]| < |all|;
      v := q;
    }
  }

  /** One turn of the digit loop. */
  method PutDigit(tmp: array<char>, p: nat, v: nat, base: nat, upper: bool) returns (q: nat)
    requires tmp.Length == SCRATCH && 8 <= base <= 16 && 0 < p < SCRATCH
    modifies tmp
    ensures q > 0 ==> q < v && Cased(Digits(q, base), upper) != []
    ensures old(Cased(Digits(v, base), upper) + tmp[p..SCRATCH - 1])
            == (if q == 0 then "" else Cased(Digits(q, base), upper)) + tmp[p - 1..SCRATCH - 1]
  {
    var r := v % base;
    q := v / base;
    ghost var left := CasedUnfold(v, base, q, r, upper, tmp[p..SCRATCH - 1]);
    var c := TableGlyph(r, upper);
    PutBack(tmp, p, c);
  }

  lemma CasedUnfold(v: nat, base: nat, q: nat, r: nat, upper: bool, was: string) returns (left: string)
    requires BaseOk(base) && q == v / base && r == v % base
    ensures left == if q == 0 then "" else Cased(Digits(q, base), upper)
    ensures q > 0 ==> q < v && left != []
    ensures Cased(Digits(v, base), upper) + was == left + ([Glyph(r, upper)] + was)
  {
    var front := if q == 0 then "" else Digits(q, base);
    DigitsUnfold(v, base, q, r);
    CasedSnoc(front, DigitChar(r), upper, was);
    left := Cased(front, upper);
  }

  method PutBack(tmp: array<char>, p: nat, c: char)
    requires tmp.Length == SCRATCH && 0 < p < SCRATCH
    modifies tmp
    ensures tmp[p - 1..SCRATCH - 1] == [c] + old(tmp[p..SCRATCH - 1])
  {
    tmp[p - 1] := c;
  }

  lemma CasedSnoc(s: string, c: char, upper: bool, was: string)
    ensures Cased(s + [c], upper) + was == Cased(s, upper) + ([if upper then Upper(c) else c] + was)
    ensures s != [] ==> Cased(s, upper) != []
  {
  }

  method HexBackwards(tmp: array<char>, value: u64) returns (p: nat)
    requires tmp.Length == SCRATCH
    modifies tmp
    ensures p == SCRATCH - 19 && tmp[p..SCRATCH - 1] == "0x" + HexFixed(value, 16)
  {
    p := SCRATCH - 1;
    tmp[p] := NUL;
    var v: nat := value;
    for i := 0 to 16
      invariant p == SCRATCH - 1 - i
      invariant HexFixed(v, 16 - i) + tmp[p..SCRATCH - 1] == HexFixed(value, 16)
    {
      ghost var was := tmp[p..SCRATCH - 1];
      p := p - 1;
      TableIsDigitChar(v % 16);
      tmp[p] := LOWER[v % 16];
      assert tmp[p..SCRATCH - 1] == [DigitChar(v % 16)] + was;
      assert HexFixed(v, 16 - i) == HexFixed(v / 16, 15 - i) + [DigitChar(v % 16)];
      v := v / 16;
    }
    ghost var hex := tmp[p..SCRATCH - 1];
    p := p - 2;
    tmp[p], tmp[p + 1] := '0', 'x';
    assert tmp[p..SCRATCH - 1] == ['0', 'x'] + hex;
  }

  method ConversionText(tmp: array<char>, conv: char, wide: bool, prec: int, a: Arg) returns (str: string)
    requires tmp.Length == SCRATCH && Known(conv)
    modifies tmp
    ensures str == Body(conv, if wide then Wide else Default, if prec < 0 then None else Some(prec), a)
  {
    ghost var len := if wide then Wide else Default;
    if conv == 'd' || conv == 'i' {
      var val := if wide then Wrap64(a.bits) else AsInt(a.bits);
      str := SignedScratch(tmp, val);
    } else if conv == 'u' || conv == 'o' || conv == 'x' || conv == 'X' {
      var val: u64 := if wide then a.bits else a.bits % TWO32;
      var base := if conv == 'u' then 10 else if conv == 'o' then 8 else 16;
      var p := DigitsBackwards(tmp, val, base, conv == 'X');
      str := tmp[p..SCRATCH - 1];
    } else if conv == 'p' {
      var p := HexBackwards(tmp, a.bits);
      str := tmp[p..SCRATCH - 1];
    } else if conv == 's' {
      str := if a.text.Some? then a.text.value else "(null)";
      if prec >= 0 && |str| > prec {
        str := str[..prec];
      }
    } else {
      str := [(a.bits % 256) as char];
    }
  }

  /** The signed branch: the minimum keeps its sign bit when negated and yields one odd digit. */
  method SignedScratch(tmp: array<char>, val: int) returns (str: string)
    requires tmp.Length == SCRATCH && -TWO63 <= val < TWO63
    modifies tmp
    ensures str == SignedText(val)
  {
    if val == -TWO63 {
      tmp[SCRATCH - 1], tmp[SCRATCH - 2], tmp[SCRATCH - 3] := NUL, '(', '-';
      str := tmp[SCRATCH - 3..SCRATCH - 1];
      return;
    }
    var neg := val < 0;
    var p := DigitsBackwards(tmp, if neg then -val else val, 10, false);
    if neg {
      ghost var was := tmp[p..SCRATCH - 1];
      p := p - 1;
      tmp[p] := '-';
      assert tmp[p..SCRATCH - 1] == ['-'] + was;
    }
    str := tmp[p..SCRATCH - 1];
  }

  // ---------------------------------------------------------------------------
  // The parser and the truncating print
  // ---------------------------------------------------------------------------

  /** One conversion, from after its percent sign; returns the format and argument cursors. */
  method PrintConversion(sink: BufSink, fmt: string, i: nat, args: Args, k0: nat) returns (next: nat, k: nat)
    requires sink.Valid() && i <= |fmt|
    modifies sink, sink.buf
    ensures sink.Valid() && sink.fed == old(sink.fed) + Render(ParseSpec(fmt, i), args, k0)
    ensures next == Min(SpecEnd(fmt, i) + 1, |fmt|) && k == k0 + Takes(ParseSpec(fmt, i))
  {
    var left, zero, width, prec, wide, at;
    left, zero, width, prec, wide, at, k := ReadConversion(fmt, i, args, k0);
    next := if at < |fmt| then at + 1 else at;
    k := Emit(sink, ParseSpec(fmt, i), args, k0, left, zero, width, prec, wide, At(fmt, at), k);
  }

  /** The conversion switch and the padding, once the conversion has been read. */
  method Emit(sink: BufSink, ghost s: Spec, args: Args, ghost k0: nat,
              left: bool, zero: bool, width: nat, prec: int, wide: bool, conv: char, k1: nat) returns (k: nat)
    requires sink.Valid() && conv == s.conv && zero == s.zero && (if wide then Wide else Default) == s.len
    requires (width, left) == WidthOf(s.width, s.left, args, k0)
    requires (if prec < 0 then None else Some(prec)) == PrecisionOf(s.prec, args, k0 + Star(s.width))
    requires k1 == k0 + Star(s.width) + Star(s.prec)
    modifies sink, sink.buf
    ensures sink.Valid() && sink.fed == old(sink.fed) + Render(s, args, k0) && k == k0 + Takes(s)
  {
    k := k1;
    if conv == '%' {
      sink.Put('%');
    } else if !Known(conv) {
      k := k + 1;
      PrintUnknown(sink, conv);
    } else {
      RenderKnown(s, args, k0);
      PrintKnown(sink, conv, wide, prec, args(k), width, left, zero);
      k := k + 1;
    }
  }

  lemma RenderKnown(s: Spec, args: Args, k: nat)
    requires Known(s.conv)
    ensures var (width, left) := WidthOf(s.width, s.left, args, k);
            Render(s, args, k)
            == Pad(Body(s.conv, s.len, PrecisionOf(s.prec, args, k + Star(s.width)),
                        args(k + Star(s.width) + Star(s.prec))),
                   width, left, s.zero)
    ensures Takes(s) == Star(s.width) + Star(s.prec) + 1
  {
  }

  method PrintUnknown(sink: BufSink, conv: char)
    requires sink.Valid()
    modifies sink, sink.buf
    ensures sink.Valid() && sink.fed == old(sink.fed) + if conv == NUL then "%" else ['%', conv]
  {
    sink.Put('%');
    if conv != NUL {
      sink.Put(conv);
    }
  }

  method PrintKnown(sink: BufSink, conv: char, wide: bool, prec: int, a: Arg, width: nat, left: bool, zero: bool)
    requires sink.Valid() && Known(conv)
    modifies sink, sink.buf
    ensures sink.Valid()
    ensures sink.fed == old(sink.fed)
            + Pad(Body(conv, if wide then Wide else Default, if prec < 0 then None else Some(prec), a),
                  width, left, zero)
  {
    var tmp := new char[SCRATCH];
    var str := ConversionText(tmp, conv, wide, prec, a);
    sink.PutPadded(str, width, left, zero);
  }

  /** The next literal character or conversion of a format. */
  method PrintItem(sink: BufSink, fmt: string, i: nat, args: Args, k0: nat) returns (next: nat, k: nat)
    requires sink.Valid() && i < |fmt|
    modifies sink, sink.buf
    ensures sink.Valid() && sink.fed == old(sink.fed) + RenderItem(ItemAt(fmt, i).0, args, k0)
    ensures next == ItemAt(fmt, i).1 && k == k0 + ItemTakes(ItemAt(fmt, i).0)
  {
    if fmt[i] != '%' {
      sink.Put(fmt[i]);
      next, k := i + 1, k0;
    } else {
      next, k := PrintConversion(sink, fmt, i + 1, args, k0);
    }
  }

  lemma RenderFirst(lex: Lexer, render: Renderer, fmt: string, i: nat, item: Item, next: nat, k: nat)
    requires i < |fmt| && lex(fmt, i) == (item, next) && i < next <= |fmt|
    ensures TakesAll(Items(lex, fmt, i)) == ItemTakes(item) + TakesAll(Items(lex, fmt, next))
    ensures RenderAll(render, Items(lex, fmt, i), k)
            == render(item, k) + RenderAll(render, Items(lex, fmt, next), k + ItemTakes(item))
  {
    var rest := Items(lex, fmt, next);
    assert Items(lex, fmt, i) == [item] + rest && ([item] + rest)[1..] == rest;
  }

  /** What is still to be printed, and how many arguments it will take. */
  ghost function Rest(fmt: string, i: nat, args: Args, k: nat): string {
    RenderAll(RendererFor(args), Items(PrintfLexer(), fmt, i), k)
  }

  ghost function RestTakes(fmt: string, i: nat): nat {
    TakesAll(Items(PrintfLexer(), fmt, i))
  }

  lemma RestFirst(fmt: string, i: nat, args: Args, item: Item, next: nat, k: nat)
    requires i < |fmt| && ItemAt(fmt, i) == (item, next)
    ensures RestTakes(fmt, i) == ItemTakes(item) + RestTakes(fmt, next)
    ensures Rest(fmt, i, args, k) == RenderItem(item, args, k) + Rest(fmt, next, args, k + ItemTakes(item))
  {
    RenderFirst(PrintfLexer(), RendererFor(args), fmt, i, item, next, k);
  }

  lemma Balance(fmt: string, i: nat, args: Args, item: Item, next: nat, k: nat, fed: string)
    requires i < |fmt| && ItemAt(fmt, i) == (item, next)
    ensures RestTakes(fmt, i) == ItemTakes(item) + RestTakes(fmt, next)
    ensures fed + Rest(fmt, i, args, k)
            == (fed + RenderItem(item, args, k)) + Rest(fmt, next, args, k + ItemTakes(item))
  {
    RestFirst(fmt, i, args, item, next, k);
    Associate(fed, RenderItem(item, args, k), Rest(fmt, next, args, k + ItemTakes(item)));
  }

  lemma Associate(a: string, b: string, c: string)
    ensures a + (b + c) == (a + b) + c
  {
  }

  /** Prints one item; what was printed and what is left to print stay the same together. */
  method PrintNext(sink: BufSink, fmt: string, i: nat, args: Args, k0: nat) returns (next: nat, k: nat)
    requires sink.Valid() && i < |fmt|
    modifies sink, sink.buf
    ensures sink.Valid() && i < next <= |fmt|
    ensures sink.fed + Rest(fmt, next, args, k) == old(sink.fed) + Rest(fmt, i, args, k0)
    ensures k + RestTakes(fmt, next) == k0 + RestTakes(fmt, i)
  {
    ghost var item, after := ItemAt(fmt, i).0, ItemAt(fmt, i).1;
    Balance(fmt, i, args, item, after, k0, sink.fed);
    next, k := PrintItem(sink, fmt, i, args, k0);
  }

  method KvFormat(sink: BufSink, fmt: string, args: Args) returns (used: nat)
    requires sink.Valid()
    modifies sink, sink.buf
    ensures sink.Valid() && sink.fed == old(sink.fed) + FormatFrom(fmt, args, 0)
    ensures used == Consumed(fmt)
  {
    var i := 0;
    used := 0;
    while i < |fmt|
      invariant sink.Valid() && i <= |fmt|
      invariant sink.fed + Rest(fmt, i, args, used) == old(sink.fed) + Rest(fmt, 0, args, 0)
      invariant used + RestTakes(fmt, i) == RestTakes(fmt, 0)
      decreases |fmt| - i
    {
      i, used := PrintNext(sink, fmt, i, args, used);
    }
    assert sink.fed + [] == sink.fed;
  }

  /**
   Main theorem: whatever the format, arguments and buffer size, the buffer holds the
   first size - 1 bytes of the unbounded output and a NUL, written plus dropped is its
   length, and the arguments consumed do not depend on the truncation.
   */
  method VsnprintfDropped(buf: array<char>, fmt: string, args: Args) returns (written: nat, dropped: nat, used: nat)
    modifies buf
    ensures var out := FormatFrom(fmt, args, 0);
            if buf.Length == 0 then written == 0 && dropped == 0 && used == 0
            else && written == Min(|out|, buf.Length - 1) && written + dropped == |out|
                 && buf[..written] == out[..written] && buf[written] == NUL
                 && used == Consumed(fmt)
  {
    written, dropped, used := 0, 0, 0;
    if buf.Length == 0 {
      return;
    }
    var sink := new BufSink(buf);
    used := KvFormat(sink, fmt, args);
    assert sink.fed == FormatFrom(fmt, args, 0);
    buf[sink.written] := NUL;
    return sink.written, sink.dropped, used;
  }
}
