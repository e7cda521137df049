/** From the text of a format to what it prints: flags, width, precision and length as they are written. */
module FormatText {
  import opened Bytes
  import opened Numbers
  import opened NumberParsing
  import opened Format
  import opened FormatMeaning

  // ---------------------------------------------------------------------------
  // A conversion as written
  // ---------------------------------------------------------------------------

  datatype Directive = Directive(flags: string, width: string, prec: string, len: string, conv: char)

  function TextOf(d: Directive): string {
    "%" + d.flags + d.width + d.prec + d.len + [d.conv]
  }

  predicate DigitText(s: string) {
    forall i | 0 <= i < |s| :: '0' <= s[i] <= '9'
  }

  /** A star, or digits, or nothing. */
  predicate AmountText(s: string) {
    s == "*" || DigitText(s)
  }

  predicate LengthText(s: string) {
    s in {"", "l", "ll", "h", "hh", "z", "t", "j"}
  }

  /** Characters that belong to another part of a conversion. */
  predicate PartOfSpec(c: char) {
    c in {'-', '0', '+', ' ', '#', '*', '.', 'l', 'h', 'z', 't', 'j'} || '0' <= c <= '9'
  }

  /** Flags; a width that does not start like a flag; a point and an amount, or nothing; a length; a conversion. */
  predicate Written(d: Directive) {
    && (forall i | 0 <= i < |d.flags| :: d.flags[i] in {'-', '0', '+', ' ', '#'})
    && AmountText(d.width) && (d.width != "" ==> d.width[0] != '0')
    && (d.prec == "" || (d.prec[0] == '.' && AmountText(d.prec[1..])))
    && LengthText(d.len) && !PartOfSpec(d.conv)
  }

  function AmountOf(s: string): Amount {
    if s == "*" then FromArg else Fixed(Value(s, 10))
  }

  /** The conversion the text asks for. */
  function SpecOf(d: Directive): Spec {
    Spec('-' in d.flags, '0' in d.flags, AmountOf(d.width), if d.prec == "" then Absent else AmountOf(d.prec[1..]),
         if d.len in {"l", "ll", "z", "t", "j"} then Wide else Default, d.conv)
  }

  // ---------------------------------------------------------------------------
  // It is parsed so
  // ---------------------------------------------------------------------------

  lemma {:induction false} FlagsStop(fmt: string, i: nat, e: nat)
    requires i <= e < |fmt| && (forall k | i <= k < e :: IsFlag(fmt[k])) && !IsFlag(fmt[e])
    ensures FlagsEnd(fmt, i) == e
    decreases e - i
  {
    if i < e {
      FlagsStop(fmt, i + 1, e);
    }
  }

  lemma AmountStops(fmt: string, i: nat, e: nat, s: string)
    requires AmountText(s) && i <= e < |fmt| && fmt[i..e] == s
    requires !('0' <= fmt[e] <= '9') && fmt[e] != '*'
    ensures ParseAmount(fmt, i) == (AmountOf(s), e)
  {
    if s == "*" {
      assert fmt[i] == fmt[i..e][0];
    } else {
      forall k | i <= k < e
        ensures '0' <= fmt[k] <= '9'
      {
        assert fmt[k] == fmt[i..e][k - i];
      }
      TenDigits(fmt[e]);
      DigitEndIs(fmt, i, 10, e);
    }
  }

  lemma TenDigits(c: char)
    ensures IsDigitOf(c, 10) <==> '0' <= c <= '9'
  {
  }

  lemma PrecisionStops(fmt: string, i: nat, e: nat, s: string)
    requires s == "" || (s[0] == '.' && AmountText(s[1..]))
    requires i <= e < |fmt| && fmt[i..e] == s && !('0' <= fmt[e] <= '9') && fmt[e] != '*' && fmt[e] != '.'
    ensures ParsePrecision(fmt, i) == (if s == "" then Absent else AmountOf(s[1..]), e)
  {
    if s != "" {
      assert fmt[i] == fmt[i..e][0] && fmt[i + 1..e] == fmt[i..e][1..];
      AmountStops(fmt, i + 1, e, s[1..]);
    }
  }

  lemma LengthStops(fmt: string, i: nat, e: nat, s: string)
    requires LengthText(s) && i <= e < |fmt| && fmt[i..e] == s && !PartOfSpec(fmt[e])
    ensures ParseLength(fmt, i) == (if s in {"l", "ll", "z", "t", "j"} then Wide else Default, e)
  {
    if |s| > 0 {
      assert fmt[i] == fmt[i..e][0];
    }
    if |s| > 1 {
      assert fmt[i + 1] == fmt[i..e][1];
    }
  }

  /** Where the parts of a directive stand in its text. */
  lemma Parts(d: Directive)
    ensures var t, f := TextOf(d), 1 + |d.flags|;
            var w := f + |d.width|;
            var p := w + |d.prec|;
            var l := p + |d.len|;
            && |t| == l + 1 && t[0] == '%' && t[1..f] == d.flags && t[f..w] == d.width && t[w..p] == d.prec
            && t[p..l] == d.len && t[l] == d.conv
  {
  }

  /** The first character of the text from i on. */
  lemma FirstOfParts(t: string, i: nat, j: nat, s: string)
    requires i <= j <= |t| && t[i..j] == s && s != ""
    ensures t[i] == s[0]
  {
    assert t[i] == t[i..j][0];
  }

  predicate Starts(s: string, next: char, c: char) {
    c == if s == "" then next else s[0]
  }

  lemma NextPart(t: string, i: nat, j: nat, s: string)
    requires i <= j < |t| && t[i..j] == s
    ensures Starts(s, t[j], t[i])
  {
    if s != "" {
      FirstOfParts(t, i, j, s);
    }
  }

  lemma LengthStart(s: string, next: char, c: char)
    requires LengthText(s) && !PartOfSpec(next) && Starts(s, next, c)
    ensures !('0' <= c <= '9') && c !in {'-', '0', '+', ' ', '#', '*', '.'}
  {
  }

  lemma FieldsOf(d: Directive, t: string, f: nat, w: nat, p: nat, l: nat)
    requires Written(d) && f <= w <= p <= l < |t| && t[f..w] == d.width && t[w..p] == d.prec && t[p..l] == d.len
    requires t[l] == d.conv
    ensures ParseFields(t, f) == Fields(SpecOf(d).width, SpecOf(d).prec, SpecOf(d).len, l)
    ensures !IsFlag(t[f])
  {
    NextPart(t, p, l, d.len);
    LengthStart(d.len, t[l], t[p]);
    NextPart(t, w, p, d.prec);
    NextPart(t, f, w, d.width);
    AmountStops(t, f, w, d.width);
    PrecisionStops(t, w, p, d.prec);
    LengthStops(t, p, l, d.len);
  }

  lemma FlagsOf(d: Directive, t: string, f: nat)
    requires Written(d) && 1 <= f < |t| && t[1..f] == d.flags && !IsFlag(t[f])
    ensures FlagsEnd(t, 1) == f
  {
    forall k | 1 <= k < f
      ensures IsFlag(t[k])
    {
      assert t[k] == t[1..f][k - 1];
    }
    FlagsStop(t, 1, f);
  }

  lemma SpecOfFields(t: string, f: nat, r: Fields)
    requires 1 <= f <= |t| && FlagsEnd(t, 1) == f && ParseFields(t, f) == r && r.at < |t|
    ensures ParseSpec(t, 1) == Spec('-' in t[1..f], '0' in t[1..f], r.width, r.prec, r.len, t[r.at])
    ensures SpecEnd(t, 1) == r.at
  {
  }

  /** The text is one conversion, read part by part. */
  lemma DirectiveIsRead(d: Directive)
    requires Written(d)
    ensures ItemAt(TextOf(d), 0) == (Conversion(SpecOf(d)), |TextOf(d)|)
  {
    var t, f := TextOf(d), 1 + |d.flags|;
    var w := f + |d.width|;
    var p := w + |d.prec|;
    var l := p + |d.len|;
    Parts(d);
    ReadParts(d, t, f, w, p, l);
    OneConversion(t, SpecOf(d), l);
  }

  lemma OneConversion(t: string, s: Spec, l: nat)
    requires t != "" && t[0] == '%' && ParseSpec(t, 1) == s && SpecEnd(t, 1) == l && l + 1 == |t|
    ensures ItemAt(t, 0) == (Conversion(s), |t|)
  {
    ConversionAt(t, 0);
  }

  lemma ReadParts(d: Directive, t: string, f: nat, w: nat, p: nat, l: nat)
    requires Written(d) && 1 <= f <= w <= p <= l < |t| && t[1..f] == d.flags
    requires t[f..w] == d.width && t[w..p] == d.prec && t[p..l] == d.len && t[l] == d.conv
    ensures ParseSpec(t, 1) == SpecOf(d) && SpecEnd(t, 1) == l
  {
    FieldsOf(d, t, f, w, p, l);
    FlagsOf(d, t, f);
    SpecOfFields(t, f, Fields(SpecOf(d).width, SpecOf(d).prec, SpecOf(d).len, l));
  }

  // ---------------------------------------------------------------------------
  // What whole formats print
  // ---------------------------------------------------------------------------

  lemma OneItem(fmt: string, item: Item, args: Args, k: nat)
    requires fmt != "" && ItemAt(fmt, 0) == (item, |fmt|)
    ensures FormatFrom(fmt, args, k) == RenderItem(item, args, k) && Consumed(fmt) == ItemTakes(item)
  {
    ParsedOne(PrintfLexer(), fmt, item);
    RenderOne(RendererFor(args), item, k);
  }

  lemma ParsedOne(lex: Lexer, fmt: string, item: Item)
    requires fmt != "" && lex(fmt, 0) == (item, |fmt|)
    ensures Items(lex, fmt, 0) == [item]
  {
    assert Items(lex, fmt, |fmt|) == [];
  }

  lemma RenderOne(render: Renderer, item: Item, k: nat)
    ensures RenderAll(render, [item], k) == render(item, k) && TakesAll([item]) == ItemTakes(item)
  {
    assert [item][1..] == [];
    assert render(item, k) + [] == render(item, k);
  }

  /**
   Main theorem: a conversion written out in a format prints its argument as ConversionPrints
   says, under the flags, width, precision and length that the text gives, and takes one
   argument for itself and one for each star.
   */
  lemma DirectivePrints(d: Directive, args: Args, k: nat)
    requires Written(d) && d.conv in {'d', 'i', 'u', 'o', 'x', 'X', 'p', 's', 'c'}
    ensures Prints(FormatFrom(TextOf(d), args, k), SpecOf(d), args, k)
    ensures Consumed(TextOf(d)) == 1 + StarCount(SpecOf(d).width) + StarCount(SpecOf(d).prec)
  {
    DirectiveIsRead(d);
    OneItem(TextOf(d), Conversion(SpecOf(d)), args, k);
    ConversionPrints(SpecOf(d), args, k);
  }

  /** A doubled percent sign prints one, and an unknown conversion prints itself and still takes an argument. */
  lemma OthersEcho(d: Directive, args: Args, k: nat)
    requires Written(d) && d.conv !in {'d', 'i', 'u', 'o', 'x', 'X', 'p', 's', 'c', '\0'}
    ensures FormatFrom(TextOf(d), args, k) == if d.conv == '%' then "%" else ['%', d.conv]
    ensures Consumed(TextOf(d))
            == (if d.conv == '%' then 0 else 1) + StarCount(SpecOf(d).width) + StarCount(SpecOf(d).prec)
  {
    DirectiveIsRead(d);
    OneItem(TextOf(d), Conversion(SpecOf(d)), args, k);
  }

  function Literals(s: string): seq<Item> {
    if s == "" then [] else [Literal(s[0])] + Literals(s[1..])
  }

  /** A lexer that finds one literal character at i. */
  predicate LiteralAt(lex: Lexer, fmt: string, i: nat) {
    i < |fmt| ==> lex(fmt, i) == (Literal(fmt[i]), i + 1)
  }

  lemma {:induction false} PlainItems(lex: Lexer, fmt: string, i: nat)
    requires i <= |fmt| && forall j :: LiteralAt(lex, fmt, j)
    ensures Items(lex, fmt, i) == Literals(fmt[i..])
    decreases |fmt| - i
  {
    if i < |fmt| {
      assert LiteralAt(lex, fmt, i);
      PlainItems(lex, fmt, i + 1);
      assert fmt[i..][1..] == fmt[i + 1..];
    }
  }

  lemma {:induction false} PlainRender(render: Renderer, text: string, k: nat)
    requires forall c: char, n: nat :: render(Literal(c), n) == [c]
    ensures RenderAll(render, Literals(text), k) == text && TakesAll(Literals(text)) == 0
    decreases |text|
  {
    if text != "" {
      PlainRender(render, text[1..], k);
      assert Literals(text)[1..] == Literals(text[1..]);
      assert text == [text[0]] + text[1..];
    }
  }

  /** A format without a percent sign prints itself and takes no argument. */
  lemma PlainTextPrintsItself(fmt: string, args: Args, k: nat)
    requires '%' !in fmt
    ensures FormatFrom(fmt, args, k) == fmt && Consumed(fmt) == 0
  {
    var lex, render := PrintfLexer(), RendererFor(args);
    forall j: nat
      ensures LiteralAt(lex, fmt, j)
    {
    }
    PlainItems(lex, fmt, 0);
    assert fmt[0..] == fmt;
    PlainRender(render, fmt, k);
  }

  lemma BareString(r: string, s: Spec, args: Args, k: nat)
    requires Prints(r, s, args, k) && s.conv == 's' && s.width == Fixed(0) && s.prec == Absent && !s.left
    ensures r == if args(k).text.None? then "(null)" else args(k).text.value
  {
    var width, left, prec, body :| PrintsAs(r, s, args, k, width, left, prec, body);
    BareText(r, body, s.zero);
  }

  lemma BareText(r: string, body: string, zero: bool)
    requires Justified(r, body, 0, false, zero)
    ensures r == body
  {
    assert r[|r| - |body|..] == body;
  }

  /** In particular a bare %s prints the string, or (null). */
  lemma PercentS(args: Args, k: nat)
    ensures FormatFrom("%s", args, k) == if args(k).text.None? then "(null)" else args(k).text.value
  {
    var d := Directive("", "", "", "", 's');
    assert TextOf(d) == "%s";
    DirectivePrints(d, args, k);
    assert Value("", 10) == 0;
    BareString(FormatFrom(TextOf(d), args, k), SpecOf(d), args, k);
  }
}
