/**
 The kernel's one printf format language, as a function from format text and
 argument list to output. An argument is a 64-bit word together with the C string
 it would point to; the list is a function from position to argument.
 */
module Format {
  import opened Bytes
  import opened Numbers
  import opened NumberParsing

  type u64 = x: int | 0 <= x < TWO64

  datatype Arg = Arg(bits: u64, text: Option<string>)
  type Args = nat -> Arg

  const TWO32: int := 0x1_0000_0000
  const TWO31: int := 0x8000_0000

  function AsInt(bits: u64): int {
    (bits + TWO31) % TWO32 - TWO31
  }

  // ---------------------------------------------------------------------------
  // Parsing one conversion
  // ---------------------------------------------------------------------------

  datatype Amount = Absent | Fixed(n: nat) | FromArg

  datatype Length = Default | Wide

  /** A parsed conversion; `conv` is NUL when the text ends first. */
  datatype Spec = Spec(left: bool, zero: bool, width: Amount, prec: Amount, len: Length, conv: char)

  predicate IsFlag(c: char) {
    c == '-' || c == '0' || c == '+' || c == ' ' || c == '#'
  }

  function FlagsEnd(fmt: string, i: nat): (r: nat)
    requires i <= |fmt|
    ensures i <= r <= |fmt|
    decreases |fmt| - i
  {
    if i < |fmt| && IsFlag(fmt[i]) then FlagsEnd(fmt, i + 1) else i
  }

  /** A literal amount or a star, and where it ends. */
  function ParseAmount(fmt: string, i: nat): (r: (Amount, nat))
    requires i <= |fmt|
    ensures i <= r.1 <= |fmt|
  {
    if i < |fmt| && fmt[i] == '*' then (FromArg, i + 1)
    else
      var e := DigitEnd(fmt, i, 10);
      (Fixed(Value(fmt[i..e], 10)), e)
  }

  function ParsePrecision(fmt: string, i: nat): (r: (Amount, nat))
    requires i <= |fmt|
    ensures i <= r.1 <= |fmt|
  {
    if i < |fmt| && fmt[i] == '.' then ParseAmount(fmt, i + 1) else (Absent, i)
  }

  /** l, ll, z, t and j widen to 64 bits; h and hh do not narrow. */
  function ParseLength(fmt: string, i: nat): (r: (Length, nat))
    requires i <= |fmt|
    ensures i <= r.1 <= |fmt|
  {
    if i < |fmt| && fmt[i] == 'l' then (Wide, if i + 1 < |fmt| && fmt[i + 1] == 'l' then i + 2 else i + 1)
    else if i < |fmt| && fmt[i] == 'h' then (Default, if i + 1 < |fmt| && fmt[i + 1] == 'h' then i + 2 else i + 1)
    else if i < |fmt| && (fmt[i] == 'z' || fmt[i] == 't' || fmt[i] == 'j') then (Wide, i + 1)
    else (Default, i)
  }

  /** Width, precision and length, and the position of the conversion character. */
  datatype Fields = Fields(width: Amount, prec: Amount, len: Length, at: nat)

  function ParseFields(fmt: string, i: nat): (r: Fields)
    requires i <= |fmt|
    ensures i <= r.at <= |fmt|
  {
    var (width, w) := ParseAmount(fmt, i);
    var (prec, p) := ParsePrecision(fmt, w);
    var (len, l) := ParseLength(fmt, p);
    Fields(width, prec, len, l)
  }

  /** Where the conversion character of the conversion at i stands. */
  function SpecEnd(fmt: string, i: nat): (r: nat)
    requires i <= |fmt|
    ensures i <= r <= |fmt|
  {
    ParseFields(fmt, FlagsEnd(fmt, i)).at
  }

  /** The conversion whose percent sign is just before i. */
  function ParseSpec(fmt: string, i: nat): Spec
    requires i <= |fmt|
  {
    var f := FlagsEnd(fmt, i);
    var r := ParseFields(fmt, f);
    Spec('-' in fmt[i..f], '0' in fmt[i..f], r.width, r.prec, r.len, At(fmt, r.at))
  }

  datatype Item = Literal(c: char) | Conversion(s: Spec)

  /** The item at position i and where the next one starts. */
  function ItemAt(fmt: string, i: nat): (r: (Item, nat))
    ensures i < |fmt| ==> i < r.1 <= |fmt|
  {
    if i >= |fmt| then (Literal(NUL), i)
    else if fmt[i] != '%' then (Literal(fmt[i]), i + 1)
    else (Conversion(ParseSpec(fmt, i + 1)), Min(SpecEnd(fmt, i + 1) + 1, |fmt|))
  }

  /** A way of cutting text into items; the lemmas below hold for any. */
  type Lexer = (string, nat) -> (Item, nat)

  function PrintfLexer(): Lexer {
    (fmt: string, i: nat) => ItemAt(fmt, i)
  }

  /** A format as a list of literal characters and conversions. */
  function Items(lex: Lexer, fmt: string, i: nat): seq<Item>
    decreases |fmt| - i
  {
    if i >= |fmt| then []
    else
      var (item, next) := lex(fmt, i);
      [item] + if i < next <= |fmt| then Items(lex, fmt, next) else []
  }

  // ---------------------------------------------------------------------------
  // Arguments used and text produced
  // ---------------------------------------------------------------------------

  function Star(a: Amount): nat {
    if a == FromArg then 1 else 0
  }

  /** How many arguments a conversion takes, from its text alone; an unknown one takes one. */
  function Takes(s: Spec): nat {
    Star(s.width) + Star(s.prec) + if s.conv == '%' then 0 else 1
  }

  predicate Known(c: char) {
    c == 'd' || c == 'i' || c == 'u' || c == 'o' || c == 'x' || c == 'X' || c == 'p' || c == 's' || c == 'c'
  }

  /** Two's-complement negation leaves the minimum as it is, and its one remainder digit prints as '('. */
  function SignedText(v: int): string
    requires -TWO63 <= v < TWO63
  {
    if v == -TWO63 then "-(" else if v < 0 then "-" + Digits(-v, 10) else Digits(v, 10)
  }

  function Upper(c: char): char {
    if 'a' <= c <= 'z' then (c as int - 32) as char else c
  }

  function UpperText(s: string): (r: string)
    ensures |r| == |s|
  {
    seq(|s|, i requires 0 <= i < |s| => Upper(s[i]))
  }

  /** Exactly n hexadecimal digits. */
  function HexFixed(v: nat, n: nat): string {
    if n == 0 then [] else HexFixed(v / 16, n - 1) + [DigitChar(v % 16)]
  }

  function SignedArg(bits: u64, len: Length): (v: int)
    ensures -TWO63 <= v < TWO63
  {
    if len == Wide then Wrap64(bits) else AsInt(bits)
  }

  function UnsignedArg(bits: u64, len: Length): u64 {
    if len == Wide then bits else bits % TWO32
  }

  /** The text of a known conversion before padding; prec is the effective precision. */
  function Body(conv: char, len: Length, prec: Option<nat>, a: Arg): string
    requires Known(conv)
  {
    if conv == 'd' || conv == 'i' then SignedText(SignedArg(a.bits, len))
    else if conv == 'u' then Digits(UnsignedArg(a.bits, len), 10)
    else if conv == 'o' then Digits(UnsignedArg(a.bits, len), 8)
    else if conv == 'x' then Digits(UnsignedArg(a.bits, len), 16)
    else if conv == 'X' then UpperText(Digits(UnsignedArg(a.bits, len), 16))
    else if conv == 'p' then "0x" + HexFixed(a.bits, 16)
    else if conv == 'c' then [(a.bits % 256) as char]
    else
      var s := if a.text.Some? then a.text.value else "(null)";
      if prec.Some? && |s| > prec.value then s[..prec.value] else s
  }

  function Fill(c: char, n: int): (s: string)
    ensures |s| == if n < 0 then 0 else n
    ensures forall i | 0 <= i < |s| :: s[i] == c
  {
    if n <= 0 then [] else Fill(c, n - 1) + [c]
  }

  function Pad(body: string, width: nat, left: bool, zero: bool): string {
    var n := width - |body|;
    if left then body + Fill(' ', n) else Fill(if zero then '0' else ' ', n) + body
  }

  /** Width and justification once a star has been looked up: a negative width justifies left. */
  function WidthOf(a: Amount, left: bool, args: Args, k: nat): (nat, bool) {
    match a
    case FromArg =>
      var w := AsInt(args(k).bits);
      if w < 0 then (-w, true) else (w, left)
    case Fixed(n) => (n, left)
    case Absent => (0, left)
  }

  /** A negative precision counts as none. */
  function PrecisionOf(a: Amount, args: Args, k: nat): Option<nat> {
    match a
    case FromArg =>
      var p := AsInt(args(k).bits);
      if p < 0 then None else Some(p)
    case Fixed(n) => Some(n)
    case Absent => None
  }

  /** Output of one conversion whose arguments start at k. */
  function Render(s: Spec, args: Args, k: nat): string {
    if s.conv == '%' then "%"
    else if !Known(s.conv) then if s.conv == NUL then "%" else ['%', s.conv]
    else
      var (width, left) := WidthOf(s.width, s.left, args, k);
      var prec := PrecisionOf(s.prec, args, k + Star(s.width));
      Pad(Body(s.conv, s.len, prec, args(k + Star(s.width) + Star(s.prec))), width, left, s.zero)
  }

  function RenderItem(item: Item, args: Args, k: nat): string {
    match item case Literal(c) => [c] case Conversion(s) => Render(s, args, k)
  }

  function ItemTakes(item: Item): nat {
    match item case Literal(_) => 0 case Conversion(s) => Takes(s)
  }

  type Renderer = (Item, nat) -> string

  function RendererFor(args: Args): Renderer {
    (item: Item, k: nat) => RenderItem(item, args, k)
  }

  function RenderAll(render: Renderer, items: seq<Item>, k: nat): string
    decreases |items|
  {
    if items == [] then [] else render(items[0], k) + RenderAll(render, items[1..], k + ItemTakes(items[0]))
  }

  function TakesAll(items: seq<Item>): nat {
    if items == [] then 0 else ItemTakes(items[0]) + TakesAll(items[1..])
  }

  function Parsed(fmt: string): seq<Item> {
    Items(PrintfLexer(), fmt, 0)
  }

  /** Arguments a format takes: a function of its text alone. */
  function Consumed(fmt: string): nat {
    TakesAll(Parsed(fmt))
  }

  /** A format printed with any renderer. */
  function FormatWith(render: Renderer, fmt: string, k: nat): string {
    RenderAll(render, Parsed(fmt), k)
  }

  /** What the unbounded sink receives for an argument list read from position k on. */
  function FormatFrom(fmt: string, args: Args, k: nat): string {
    FormatWith(RendererFor(args), fmt, k)
  }

  // ---------------------------------------------------------------------------
  // Concatenation
  // ---------------------------------------------------------------------------

  /** The item at i does not run into the end of the text. */
  predicate WholeAt(fmt: string, i: nat) {
    i < |fmt| && (fmt[i] == '%' ==> SpecEnd(fmt, i + 1) < |fmt|)
  }

  /** No conversion is cut off by the end of the text. */
  predicate Complete(fmt: string) {
    CompleteFrom(PrintfLexer(), Whole(), fmt, 0)
  }

  function Whole(): (string, nat) -> bool {
    (f: string, i: nat) => WholeAt(f, i)
  }

  predicate CompleteFrom(lex: Lexer, whole: (string, nat) -> bool, fmt: string, i: nat)
    decreases |fmt| - i
  {
    i >= |fmt| ||
    (whole(fmt, i) && i < lex(fmt, i).1 <= |fmt| && CompleteFrom(lex, whole, fmt, lex(fmt, i).1))
  }

  lemma {:induction false} FlagsEndExtends(f: string, g: string, i: nat)
    requires i <= |f| && FlagsEnd(f, i) < |f|
    ensures FlagsEnd(f + g, i) == FlagsEnd(f, i)
    decreases |f| - i
  {
    if IsFlag(f[i]) {
      FlagsEndExtends(f, g, i + 1);
    }
  }

  lemma {:induction false} DigitEndExtends(f: string, g: string, i: nat)
    requires i <= |f| && DigitEnd(f, i, 10) < |f|
    ensures DigitEnd(f + g, i, 10) == DigitEnd(f, i, 10)
    decreases |f| - i
  {
    if IsDigitOf(f[i], 10) {
      DigitEndExtends(f, g, i + 1);
    }
  }

  lemma AmountExtends(f: string, g: string, i: nat)
    requires i <= |f| && ParseAmount(f, i).1 < |f|
    ensures ParseAmount(f + g, i) == ParseAmount(f, i)
  {
    if i < |f| && f[i] != '*' {
      DigitEndExtends(f, g, i);
      var e := DigitEnd(f, i, 10);
      assert (f + g)[i..e] == f[i..e];
    }
  }

  lemma FieldsExtend(f: string, g: string, i: nat)
    requires i <= |f| && ParseFields(f, i).at < |f|
    ensures ParseFields(f + g, i) == ParseFields(f, i)
  {
    AmountExtends(f, g, i);
    var w := ParseAmount(f, i).1;
    assert ParsePrecision(f + g, w) == ParsePrecision(f, w) by {
      if f[w] == '.' {
        AmountExtends(f, g, w + 1);
      }
    }
    var p := ParsePrecision(f, w).1;
    assert ParseLength(f + g, p) == ParseLength(f, p);
  }

  /** A complete conversion parses the same whatever text follows. */
  lemma SpecExtends(f: string, g: string, i: nat)
    requires i <= |f| && SpecEnd(f, i) < |f|
    ensures ParseSpec(f + g, i) == ParseSpec(f, i) && SpecEnd(f + g, i) == SpecEnd(f, i)
  {
    var fe := FlagsEnd(f, i);
    FlagsEndExtends(f, g, i);
    assert (f + g)[i..fe] == f[i..fe];
    FieldsExtend(f, g, fe);
  }

  lemma {:induction false} FlagsEndShifts(f: string, g: string, i: nat)
    requires i <= |g|
    ensures FlagsEnd(f + g, |f| + i) == |f| + FlagsEnd(g, i)
    decreases |g| - i
  {
    if i < |g| && IsFlag(g[i]) {
      FlagsEndShifts(f, g, i + 1);
    }
  }

  lemma {:induction false} DigitEndShifts(f: string, g: string, i: nat)
    requires i <= |g|
    ensures DigitEnd(f + g, |f| + i, 10) == |f| + DigitEnd(g, i, 10)
    decreases |g| - i
  {
    if i < |g| && IsDigitOf(g[i], 10) {
      DigitEndShifts(f, g, i + 1);
    }
  }

  lemma AmountShifts(f: string, g: string, i: nat)
    requires i <= |g|
    ensures ParseAmount(f + g, |f| + i).0 == ParseAmount(g, i).0
    ensures ParseAmount(f + g, |f| + i).1 == |f| + ParseAmount(g, i).1
  {
    DigitEndShifts(f, g, i);
    var e := DigitEnd(g, i, 10);
    assert (f + g)[|f| + i..|f| + e] == g[i..e];
  }

  lemma PrecisionShifts(f: string, g: string, w: nat)
    requires w <= |g|
    ensures ParsePrecision(f + g, |f| + w).0 == ParsePrecision(g, w).0
    ensures ParsePrecision(f + g, |f| + w).1 == |f| + ParsePrecision(g, w).1
  {
    if w < |g| {
      assert (f + g)[|f| + w] == g[w];
      AmountShifts(f, g, w + 1);
    }
  }

  lemma LengthShifts(f: string, g: string, p: nat)
    requires p <= |g|
    ensures ParseLength(f + g, |f| + p).0 == ParseLength(g, p).0
    ensures ParseLength(f + g, |f| + p).1 == |f| + ParseLength(g, p).1
  {
    if p < |g| {
      assert (f + g)[|f| + p] == g[p];
    }
    if p + 1 < |g| {
      assert (f + g)[|f| + p + 1] == g[p + 1];
    }
  }

  lemma FieldsShift(f: string, g: string, i: nat)
    requires i <= |g|
    ensures ParseFields(f + g, |f| + i) == ParseFields(g, i).(at := |f| + ParseFields(g, i).at)
  {
    AmountShifts(f, g, i);
    PrecisionShifts(f, g, ParseAmount(g, i).1);
    LengthShifts(f, g, ParsePrecision(g, ParseAmount(g, i).1).1);
  }

  lemma SpecShifts(f: string, g: string, i: nat)
    requires i <= |g|
    ensures ParseSpec(f + g, |f| + i) == ParseSpec(g, i) && SpecEnd(f + g, |f| + i) == |f| + SpecEnd(g, i)
  {
    FlagsEndShifts(f, g, i);
    var fe := FlagsEnd(g, i);
    assert (f + g)[|f| + i..|f| + fe] == g[i..fe];
    FieldsShift(f, g, fe);
  }

  lemma ConversionAt(fmt: string, i: nat)
    requires i < |fmt| && fmt[i] == '%'
    ensures ItemAt(fmt, i) == (Conversion(ParseSpec(fmt, i + 1)), Min(SpecEnd(fmt, i + 1) + 1, |fmt|))
  {
  }

  /** Position i of one text, and the same position of a text with something before it. */
  predicate SamePlace(h: string, at: nat, g: string, i: nat) {
    i < |g| && at < |h| && h[at] == g[i] && |h| - at == |g| - i
  }

  lemma SpecShiftsAfter(f: string, g: string, i: nat, at: nat)
    requires i < |g| && at == |f| + i
    ensures SamePlace(f + g, at, g, i)
    ensures ParseSpec(f + g, at + 1) == ParseSpec(g, i + 1) && SpecEnd(f + g, at + 1) == |f| + SpecEnd(g, i + 1)
  {
    SpecShifts(f, g, i + 1);
  }

  /** The same item further on in another text. */
  lemma SameItem(h: string, at: nat, g: string, i: nat, n: nat)
    requires SamePlace(h, at, g, i) && at == n + i
    requires ParseSpec(h, at + 1) == ParseSpec(g, i + 1) && SpecEnd(h, at + 1) == n + SpecEnd(g, i + 1)
    ensures ItemAt(h, at).0 == ItemAt(g, i).0 && ItemAt(h, at).1 == n + ItemAt(g, i).1
  {
    if g[i] == '%' {
      ConversionAt(g, i);
      ConversionAt(h, at);
    }
  }

  lemma ItemShifts(f: string, g: string, i: nat, at: nat)
    requires i < |g| && at == |f| + i
    ensures ItemAt(f + g, at).0 == ItemAt(g, i).0 && ItemAt(f + g, at).1 == |f| + ItemAt(g, i).1
  {
    SpecShiftsAfter(f, g, i, at);
    SameItem(f + g, at, g, i, |f|);
  }

  lemma ItemExtends(f: string, g: string, i: nat)
    requires WholeAt(f, i)
    ensures ItemAt(f + g, i) == ItemAt(f, i)
  {
    if f[i] == '%' {
      SpecExtends(f, g, i + 1);
    }
  }

  /** What precedes the current position does not matter. */
  lemma {:induction false} ItemsShift(lex: Lexer, f: string, g: string, i: nat)
    requires i <= |g| && forall j: nat | j < |g| :: lex(f + g, |f| + j) == (lex(g, j).0, |f| + lex(g, j).1)
    ensures Items(lex, f + g, |f| + i) == Items(lex, g, i)
    decreases |g| - i
  {
    if i < |g| {
      var next := lex(g, i).1;
      if i < next <= |g| {
        ItemsShift(lex, f, g, next);
      }
    }
  }

  lemma {:induction false} ItemsConcatenate(lex: Lexer, whole: (string, nat) -> bool, f: string, g: string, i: nat)
    requires i <= |f| && CompleteFrom(lex, whole, f, i)
    requires forall j: nat | whole(f, j) :: lex(f + g, j) == lex(f, j)
    requires forall j: nat | j < |g| :: lex(f + g, |f| + j) == (lex(g, j).0, |f| + lex(g, j).1)
    ensures Items(lex, f + g, i) == Items(lex, f, i) + Items(lex, g, 0)
    decreases |f| - i
  {
    if i == |f| {
      ItemsShift(lex, f, g, 0);
    } else {
      ItemsConcatenate(lex, whole, f, g, lex(f, i).1);
    }
  }

  lemma {:induction false} TakesConcatenate(a: seq<Item>, b: seq<Item>)
    ensures TakesAll(a + b) == TakesAll(a) + TakesAll(b)
    decreases |a|
  {
    if a == [] {
      assert a + b == b;
    } else {
      assert (a + b)[1..] == a[1..] + b;
      TakesConcatenate(a[1..], b);
    }
  }

  lemma {:induction false} RenderConcatenates(render: Renderer, a: seq<Item>, b: seq<Item>, k: nat, l: nat)
    requires l == k + TakesAll(a)
    ensures RenderAll(render, a + b, k) == RenderAll(render, a, k) + RenderAll(render, b, l)
    decreases |a|
  {
    if a == [] {
      assert a + b == b;
    } else {
      assert (a + b)[1..] == a[1..] + b;
      RenderConcatenates(render, a[1..], b, k + ItemTakes(a[0]), l);
    }
  }

  /**
   Main theorem: formatting a concatenation whose first part is complete is formatting
   the parts, the second one starting at the arguments the first leaves. It holds for
   every renderer, so for `RendererFor(args)` with any argument list.
   */
  lemma FormatConcatenates(render: Renderer, f: string, g: string, k: nat)
    requires Complete(f)
    ensures FormatWith(render, f + g, k) == FormatWith(render, f, k) + FormatWith(render, g, k + Consumed(f))
    ensures Consumed(f + g) == Consumed(f) + Consumed(g)
  {
    AppendedItems(f, g);
    PartsConcatenate(render, Parsed(f), Parsed(g), Parsed(f + g), k, k + Consumed(f));
  }

  lemma PartsConcatenate(render: Renderer, a: seq<Item>, b: seq<Item>, ab: seq<Item>, k: nat, l: nat)
    requires ab == a + b && l == k + TakesAll(a)
    ensures RenderAll(render, ab, k) == RenderAll(render, a, k) + RenderAll(render, b, l)
    ensures TakesAll(ab) == TakesAll(a) + TakesAll(b)
  {
    TakesConcatenate(a, b);
    RenderConcatenates(render, a, b, k, l);
  }

  lemma LexerExtends(f: string, g: string)
    ensures forall j: nat | Whole()(f, j) :: PrintfLexer()(f + g, j) == PrintfLexer()(f, j)
  {
    forall j: nat | Whole()(f, j)
      ensures PrintfLexer()(f + g, j) == PrintfLexer()(f, j)
    {
      ItemExtends(f, g, j);
    }
  }

  lemma LexerShifts(f: string, g: string)
    ensures forall j: nat | j < |g| ::
              PrintfLexer()(f + g, |f| + j) == (PrintfLexer()(g, j).0, |f| + PrintfLexer()(g, j).1)
  {
    forall j: nat | j < |g|
      ensures PrintfLexer()(f + g, |f| + j) == (PrintfLexer()(g, j).0, |f| + PrintfLexer()(g, j).1)
    {
      LexerShiftsAt(f, g, j);
    }
  }

  lemma LexerShiftsAt(f: string, g: string, j: nat)
    requires j < |g|
    ensures PrintfLexer()(f + g, |f| + j) == (PrintfLexer()(g, j).0, |f| + PrintfLexer()(g, j).1)
  {
    var lex := PrintfLexer();
    assert lex(f + g, |f| + j) == ItemAt(f + g, |f| + j) && lex(g, j) == ItemAt(g, j);
    ItemShifts(f, g, j, |f| + j);
  }

  lemma AppendedItems(f: string, g: string)
    requires Complete(f)
    ensures Parsed(f + g) == Parsed(f) + Parsed(g)
  {
    LexerExtends(f, g);
    LexerShifts(f, g);
    ItemsConcatenate(PrintfLexer(), Whole(), f, g, 0);
  }
}
