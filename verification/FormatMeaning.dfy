/** What each conversion prints, said of the text printed and not of how it is put together. */
module FormatMeaning {
  import opened Bytes
  import opened Numbers
  import opened NumberParsing
  import opened Format

  // ---------------------------------------------------------------------------
  // Padding
  // ---------------------------------------------------------------------------

  /** `body` stands at one end of `r`, and blanks or zeros fill the rest of the width. */
  predicate Justified(r: string, body: string, width: int, left: bool, zero: bool) {
    && |r| == (if width > |body| then width else |body|)
    && (if left
        then r[..|body|] == body && forall i | |body| <= i < |r| :: r[i] == ' '
        else r[|r| - |body|..] == body && forall i | 0 <= i < |r| - |body| :: r[i] == if zero then '0' else ' ')
  }

  lemma PadJustifies(body: string, width: nat, left: bool, zero: bool)
    ensures Justified(Pad(body, width, left, zero), body, width, left, zero)
  {
  }

  // ---------------------------------------------------------------------------
  // The text of a conversion
  // ---------------------------------------------------------------------------

  /** The shortest spelling of v in a base, in one letter case. */
  predicate Numeral(b: string, v: nat, base: nat, upper: bool) {
    && b != [] && (|b| > 1 ==> b[0] != '0') && Value(b, base) == v
    && forall i | 0 <= i < |b| ::
         DigitValue(b[i]) < base && if upper then !('a' <= b[i] <= 'z') else !('A' <= b[i] <= 'Z')
  }

  /** v is what the low 32 or all 64 bits of a word mean in two's complement. */
  predicate SignedWord(bits: u64, wide: bool, v: int) {
    if wide then -0x8000_0000_0000_0000 <= v < 0x8000_0000_0000_0000 && (v == bits || v == bits - TWO64)
    else -0x8000_0000 <= v < 0x8000_0000 && (bits - v) % 0x1_0000_0000 == 0
  }

  function UnsignedWord(bits: u64, wide: bool): nat {
    if wide then bits else bits % 0x1_0000_0000
  }

  /** A number with its sign; the 64-bit minimum comes out as it does in the kernel. */
  predicate SignedNumeral(b: string, v: int) {
    if v == -0x8000_0000_0000_0000 then b == "-("
    else if v < 0 then b != [] && b[0] == '-' && Numeral(b[1..], -v, 10, false)
    else Numeral(b, v, 10, false)
  }

  /** A string, or the text for none, cut to a precision. */
  predicate CutText(b: string, t: string, prec: Option<nat>) {
    b <= t && |b| == if prec.Some? && prec.value < |t| then prec.value else |t|
  }

  ghost predicate Says(conv: char, wide: bool, prec: Option<nat>, a: Arg, b: string) {
    match conv
    case 'd' => exists v :: SignedWord(a.bits, wide, v) && SignedNumeral(b, v)
    case 'i' => exists v :: SignedWord(a.bits, wide, v) && SignedNumeral(b, v)
    case 'u' => Numeral(b, UnsignedWord(a.bits, wide), 10, false)
    case 'o' => Numeral(b, UnsignedWord(a.bits, wide), 8, false)
    case 'x' => Numeral(b, UnsignedWord(a.bits, wide), 16, false)
    case 'X' => Numeral(b, UnsignedWord(a.bits, wide), 16, true)
    case 'p' => |b| == 18 && b[..2] == "0x" && LowerHexText(b[2..]) && Value(b[2..], 16) == a.bits
    case 'c' => |b| == 1 && b[0] as int == a.bits % 0x100
    case 's' => CutText(b, if a.text.None? then "(null)" else a.text.value, prec)
    case _ => false
  }

  predicate LowerHexText(b: string) {
    forall i | 0 <= i < |b| :: LowerHex(b[i])
  }

  lemma {:induction false} NoLeadingZero(v: nat, base: nat)
    requires BaseOk(base) && v > 0
    ensures Digits(v, base)[0] != '0'
    decreases v
  {
    var q, r := v / base, v % base;
    DigitsUnfold(v, base, q, r);
    DigitCharIs(r);
    if q > 0 {
      NoLeadingZero(q, base);
    }
  }

  lemma DigitsAreNumeral(v: nat, base: nat)
    requires BaseOk(base)
    ensures Numeral(Digits(v, base), v, base, false)
  {
    DigitsAreWorth(v, base);
    if v > 0 {
      NoLeadingZero(v, base);
    } else {
      DigitsUnfold(0, base, 0, 0);
    }
  }

  lemma {:induction false} UpperKeepsValue(s: string, base: nat)
    ensures Value(UpperText(s), base) == Value(s, base)
  {
    if s != [] {
      var front, c := s[..|s| - 1], s[|s| - 1];
      UpperKeepsValue(front, base);
      assert UpperText(s)[..|s| - 1] == UpperText(front);
      assert UpperText(s)[|s| - 1] == Upper(c);
      UpperKeepsDigit(c);
    }
  }

  lemma UpperKeepsDigit(c: char)
    ensures DigitValue(Upper(c)) == DigitValue(c) && !('a' <= Upper(c) <= 'z') && (c != '0' ==> Upper(c) != '0')
  {
  }

  lemma UpperNumeral(b: string, v: nat, base: nat)
    requires Numeral(b, v, base, false)
    ensures Numeral(UpperText(b), v, base, true)
  {
    var u := UpperText(b);
    UpperKeepsValue(b, base);
    forall i | 0 <= i < |u|
      ensures DigitValue(u[i]) < base && !('a' <= u[i] <= 'z') && (b[i] != '0' ==> u[i] != '0')
    {
      UpperKeepsDigit(b[i]);
    }
  }

  lemma {:induction false} HexFixedIs(v: nat, n: nat)
    requires v < Power(16, n)
    ensures |HexFixed(v, n)| == n && LowerHexText(HexFixed(v, n)) && Value(HexFixed(v, n), 16) == v
    decreases n
  {
    if n > 0 {
      HexFixedIs(v / 16, n - 1);
      DigitCharIs(v % 16);
      ValueSnoc(HexFixed(v / 16, n - 1), DigitChar(v % 16), 16);
    }
  }

  lemma SixteenDigits()
    ensures Power(16, 16) == TWO64
  {
    assert Power(16, 4) == 0x1_0000;
    assert Power(16, 8) == 0x1_0000 * 0x1_0000;
    assert Power(16, 12) == 0x1_0000 * 0x1_0000 * 0x1_0000;
  }

  lemma SignedWordIs(bits: u64, len: Length)
    ensures SignedWord(bits, len == Wide, SignedArg(bits, len))
  {
    if len == Wide {
      WrapIsPlain(bits);
    } else {
      var v := AsInt(bits);
      var q := (bits + TWO31) / TWO32;
      assert bits - v == q * TWO32;
    }
  }

  lemma WrapIsPlain(bits: u64)
    ensures Wrap64(bits) == if bits < TWO63 then bits else bits - TWO64
  {
    if bits < TWO63 {
      ModSmall(bits + TWO63);
    } else {
      ModSmall(bits - TWO63);
      assert (bits + TWO63) % TWO64 == bits + TWO63 - TWO64;
    }
  }

  lemma SignedTextSays(v: int)
    requires -TWO63 <= v < TWO63
    ensures SignedNumeral(SignedText(v), v)
  {
    if v == -TWO63 {
    } else if v < 0 {
      DigitsAreNumeral(-v, 10);
      assert ("-" + Digits(-v, 10))[1..] == Digits(-v, 10);
    } else {
      DigitsAreNumeral(v, 10);
    }
  }

  lemma HexBodySays(a: Arg)
    ensures var b := "0x" + HexFixed(a.bits, 16);
            |b| == 18 && b[..2] == "0x" && LowerHexText(b[2..]) && Value(b[2..], 16) == a.bits
  {
    SixteenDigits();
    HexFixedIs(a.bits, 16);
    assert ("0x" + HexFixed(a.bits, 16))[2..] == HexFixed(a.bits, 16);
  }

  lemma NumberBodySays(conv: char, len: Length, prec: Option<nat>, a: Arg)
    requires conv in {'u', 'o', 'x', 'X'}
    ensures Says(conv, len == Wide, prec, a, Body(conv, len, prec, a))
  {
    var v := UnsignedArg(a.bits, len);
    var base := if conv == 'u' then 10 else if conv == 'o' then 8 else 16;
    DigitsAreNumeral(v, base);
    if conv == 'X' {
      UpperNumeral(Digits(v, base), v, base);
    }
  }

  lemma BodySays(conv: char, len: Length, prec: Option<nat>, a: Arg)
    requires Known(conv)
    ensures Says(conv, len == Wide, prec, a, Body(conv, len, prec, a))
  {
    if conv == 'd' || conv == 'i' {
      SignedWordIs(a.bits, len);
      SignedTextSays(SignedArg(a.bits, len));
    } else if conv == 'p' {
      HexBodySays(a);
    } else if conv != 's' && conv != 'c' {
      NumberBodySays(conv, len, prec, a);
    }
  }

  // ---------------------------------------------------------------------------
  // Width and precision
  // ---------------------------------------------------------------------------

  /** The width asked for, and which side: a negative argument for a star asks for the left. */
  ghost predicate AsksWidth(a: Amount, flag: bool, args: Args, k: nat, width: nat, left: bool) {
    match a
    case Absent => width == 0 && left == flag
    case Fixed(n) => width == n && left == flag
    case FromArg => exists v :: SignedWord(args(k).bits, false, v)
                                && (if v < 0 then width == -v && left else width == v && left == flag)
  }

  /** The precision asked for; a negative argument for a star asks for none. */
  ghost predicate AsksPrecision(a: Amount, args: Args, k: nat, prec: Option<nat>) {
    match a
    case Absent => prec == None
    case Fixed(n) => prec == Some(n)
    case FromArg => exists v :: SignedWord(args(k).bits, false, v) && (if v < 0 then prec == None else prec == Some(v))
  }

  function StarCount(a: Amount): nat {
    if a.FromArg? then 1 else 0
  }

  ghost predicate PrintsAs(
    r: string, s: Spec, args: Args, k: nat, width: nat, left: bool, prec: Option<nat>, body: string)
  {
    && AsksWidth(s.width, s.left, args, k, width, left)
    && AsksPrecision(s.prec, args, k + StarCount(s.width), prec)
    && Says(s.conv, s.len == Wide, prec, args(k + StarCount(s.width) + StarCount(s.prec)), body)
    && Justified(r, body, width, left, s.zero)
  }

  /** What one conversion prints: some text that says its argument, justified in its width. */
  ghost predicate Prints(r: string, s: Spec, args: Args, k: nat) {
    exists width, left, prec, body :: PrintsAs(r, s, args, k, width, left, prec, body)
  }

  lemma WidthAsked(a: Amount, flag: bool, args: Args, k: nat)
    ensures AsksWidth(a, flag, args, k, WidthOf(a, flag, args, k).0, WidthOf(a, flag, args, k).1)
  {
    SignedWordIs(args(k).bits, Default);
  }

  lemma PrecisionAsked(a: Amount, args: Args, k: nat)
    ensures AsksPrecision(a, args, k, PrecisionOf(a, args, k))
  {
    SignedWordIs(args(k).bits, Default);
  }

  lemma StarsAlike(a: Amount)
    ensures Star(a) == StarCount(a)
  {
  }

  /** The width, side and precision a conversion asks for. */
  ghost predicate Asks(s: Spec, args: Args, k: nat, width: nat, left: bool, prec: Option<nat>) {
    && AsksWidth(s.width, s.left, args, k, width, left)
    && AsksPrecision(s.prec, args, k + StarCount(s.width), prec)
  }

  lemma AskedBySpec(s: Spec, args: Args, k: nat, width: nat, left: bool, prec: Option<nat>)
    requires (width, left) == WidthOf(s.width, s.left, args, k)
    requires prec == PrecisionOf(s.prec, args, k + Star(s.width))
    ensures Asks(s, args, k, width, left, prec)
  {
    StarsAlike(s.width);
    WidthAsked(s.width, s.left, args, k);
    PrecisionAsked(s.prec, args, k + Star(s.width));
  }

  lemma PaddedPrints(s: Spec, args: Args, k: nat, width: nat, left: bool, prec: Option<nat>, a: Arg, body: string)
    requires Asks(s, args, k, width, left, prec) && a == args(k + StarCount(s.width) + StarCount(s.prec))
    requires Says(s.conv, s.len == Wide, prec, a, body)
    ensures Prints(Pad(body, width, left, s.zero), s, args, k)
  {
    PadJustifies(body, width, left, s.zero);
    assert PrintsAs(Pad(body, width, left, s.zero), s, args, k, width, left, prec, body);
  }

  /** What a known conversion renders, given the text of its argument. */
  lemma KnownRender(s: Spec, args: Args, k: nat, width: nat, left: bool, prec: Option<nat>, a: Arg, body: string)
    requires Known(s.conv) && (width, left) == WidthOf(s.width, s.left, args, k)
    requires prec == PrecisionOf(s.prec, args, k + Star(s.width))
    requires a == args(k + Star(s.width) + Star(s.prec)) && body == Body(s.conv, s.len, prec, a)
    ensures Render(s, args, k) == Pad(body, width, left, s.zero)
  {
  }

  lemma ArgumentText(conv: char, len: Length, prec: Option<nat>, a: Arg) returns (body: string)
    requires Known(conv)
    ensures body == Body(conv, len, prec, a) && Says(conv, len == Wide, prec, a, body)
  {
    body := Body(conv, len, prec, a);
    BodySays(conv, len, prec, a);
  }

  lemma ArgumentPlace(s: Spec, k: nat)
    ensures k + Star(s.width) + Star(s.prec) == k + StarCount(s.width) + StarCount(s.prec)
  {
  }

  /** The padded text of a conversion, and what it says. */
  lemma RenderedText(s: Spec, args: Args, k: nat, width: nat, left: bool, prec: Option<nat>, a: Arg)
    returns (body: string)
    requires Known(s.conv) && (width, left) == WidthOf(s.width, s.left, args, k)
    requires prec == PrecisionOf(s.prec, args, k + Star(s.width)) && a == args(k + Star(s.width) + Star(s.prec))
    ensures Render(s, args, k) == Pad(body, width, left, s.zero)
    ensures Says(s.conv, s.len == Wide, prec, a, body)
  {
    body := ArgumentText(s.conv, s.len, prec, a);
    KnownRender(s, args, k, width, left, prec, a, body);
  }

  /** Main theorem on one conversion, for every flag, width, precision, length and argument list. */
  lemma ConversionPrints(s: Spec, args: Args, k: nat)
    requires Known(s.conv)
    ensures Prints(Render(s, args, k), s, args, k)
  {
    var (width, left) := WidthOf(s.width, s.left, args, k);
    var prec := PrecisionOf(s.prec, args, k + Star(s.width));
    var a := args(k + Star(s.width) + Star(s.prec));
    ArgumentPlace(s, k);
    AskedBySpec(s, args, k, width, left, prec);
    var body := RenderedText(s, args, k, width, left, prec, a);
    PaddedPrints(s, args, k, width, left, prec, a, body);
  }
}
