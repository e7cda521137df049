/** What the parsers read back from padded numbers, and exactly when it is the number printed. */
module FormatNumbers {
  import opened Bytes
  import opened Numbers
  import opened NumberParsing
  import opened Format

  lemma PaddedLength(body: string, width: nat, left: bool, zero: bool)
    ensures |Pad(body, width, left, zero)| == if width > |body| then width else |body|
  {
  }

  lemma {:induction false} ZerosAreNothing(n: int, base: nat)
    ensures Value(Fill('0', n), base) == 0
    decreases n
  {
    if n > 0 {
      ZerosAreNothing(n - 1, base);
      ValueSnoc(Fill('0', n - 1), '0', base);
    }
  }

  lemma {:induction false} LeadingZeros(n: int, ds: string, base: nat)
    ensures Value(Fill('0', n) + ds, base) == Value(ds, base)
    decreases |ds|
  {
    var zeros := Fill('0', n);
    if ds == [] {
      ZerosAreNothing(n, base);
      assert zeros + ds == zeros;
    } else {
      var front, c := ds[..|ds| - 1], ds[|ds| - 1];
      LeadingZeros(n, front, base);
      assert zeros + ds == (zeros + front) + [c] && front + [c] == ds;
      ValueSnoc(zeros + front, c, base);
      ValueSnoc(front, c, base);
    }
  }

  /** Where parsing a padded run of digits starts and ends, and what the run there is. */
  lemma PaddedRun(ds: string, base: nat, width: nat, left: bool, zero: bool) returns (i: nat, end: nat)
    requires BaseOk(base) && ds != [] && DigitsOf(ds, base)
    ensures var s := Pad(ds, width, left, zero);
            && i < end <= |s| && (end < |s| ==> s[end] == ' ') && (forall k | 0 <= k < i :: s[k] == ' ')
            && s[i..end] == if zero && !left then Fill('0', width - |ds|) + ds else ds
  {
    var s := Pad(ds, width, left, zero);
    if left {
      i, end := 0, |ds|;
    } else if zero {
      i, end := 0, |s|;
    } else {
      i, end := |s| - |ds|, |s|;
    }
  }

  lemma RunIsNumeral(s: string, i: nat, end: nat, n: int, ds: string, base: nat)
    requires BaseOk(base) && DigitsOf(ds, base) && i < end <= |s| && (end < |s| ==> s[end] == ' ')
    requires s[i..end] == Fill('0', n) + ds
    ensures NumeralAt(s, i, end, base)
  {
    forall k | i <= k < end
      ensures LowerHex(s[k]) && DigitValue(s[k]) < base
    {
      assert s[k] == s[i..end][k - i];
    }
  }

  /** A printed number padded in any way is a numeral worth v at the place where parsing starts. */
  lemma PaddedNumeral(v: nat, base: nat, width: nat, left: bool, zero: bool)
    returns (i: nat, end: nat)
    requires BaseOk(base)
    ensures var s := Pad(Digits(v, base), width, left, zero);
            && i < end <= |s| && NumeralAt(s, i, end, base) && Value(s[i..end], base) == v
            && forall k | 0 <= k < i :: s[k] == ' '
  {
    var ds := Digits(v, base);
    DigitsAreDigits(v, base);
    ValueOfDigits(v, base);
    i, end := PaddedRun(ds, base, width, left, zero);
    var n := if zero && !left then width - |ds| else 0;
    assert Fill('0', 0) + ds == ds;
    RunIsNumeral(Pad(ds, width, left, zero), i, end, n, ds, base);
    LeadingZeros(n, ds, base);
  }

  /** Unsigned conversions in bases 8, 10 and 16 parse back under every width and flag. */
  lemma UnsignedParsesBack(v: nat, base: nat, width: nat, left: bool, zero: bool)
    requires v < TWO64 && BaseOk(base)
    ensures Strtoul(Pad(Digits(v, base), width, left, zero), base).0 == v
  {
    var i, end := PaddedNumeral(v, base, width, left, zero);
    UnsignedReads(Pad(Digits(v, base), width, left, zero), i, end, base);
  }

  /** Zeros put before a minus sign hide the number. */
  predicate ZerosBeforeSign(v: int, width: nat, left: bool, zero: bool)
    requires -TWO63 <= v < TWO63
  {
    v < 0 && zero && !left && width > |SignedText(v)|
  }

  lemma SignBefore(s: string, i: nat, end: nat, v: int, base: nat)
    requires BaseOk(base) && -TWO63 < v < 0 && i < |s| && (forall k | 0 <= k < i :: s[k] == ' ') && s[i] == '-'
    requires NumeralAt(s, i + 1, end, base) && Value(s[i + 1..end], base) == -v
    ensures Strtol(s, base).0 == v
  {
    NegativeReads(s, i, end, base);
  }

  lemma SignAfter(s: string, i: nat, ds: string, v: int, base: nat)
    requires BaseOk(base) && -TWO63 < v < 0 && i < |s| && (forall k | 0 <= k < i :: s[k] == ' ') && s[i] == '-'
    requires ds != [] && DigitsOf(ds, base) && Value(ds, base) == -v
    requires i + 1 + |ds| <= |s| && s[i + 1..i + 1 + |ds|] == ds
    requires i + 1 + |ds| == |s| || s[i + 1 + |ds|] == ' '
    ensures Strtol(s, base).0 == v
  {
    var end := i + 1 + |ds|;
    forall k | i + 1 <= k < end
      ensures LowerHex(s[k]) && DigitValue(s[k]) < base
    {
      assert s[k] == s[i + 1..end][k - (i + 1)];
    }
    SignBefore(s, i, end, v, base);
  }

  lemma ZerosHide(s: string, n: nat)
    requires 0 < n < |s| && (forall k | 0 <= k < n :: s[k] == '0') && s[n] == '-'
    ensures Strtol(s, 10).0 == 0
  {
    assert s[0..n] == Fill('0', n) + [];
    LeadingZeros(n, [], 10);
    PositiveReads(s, 0, n, 10);
  }

  /** "-(" , which the minimum prints as, reads as zero. */
  lemma OddMinimumReadsZero(s: string, i: nat)
    requires i + 1 < |s| && (forall k | 0 <= k < i :: s[k] == ' ') && s[i] == '-' && s[i + 1] == '('
    ensures Strtol(s, 10).0 == 0
  {
    SkipSpaceIs(s, 0, i);
    assert DigitEnd(s, i + 1, 10) == i + 1;
    assert s[i + 1..i + 1] == [];
    WrapSmall(0);
  }

  /**
   Main theorem: a signed conversion parses back to its value under any width and
   flags, if and only if the value is not the 64-bit minimum and zeros have not been
   put before its minus sign.
   */
  lemma SignedParsesBackIff(v: int, width: nat, left: bool, zero: bool)
    requires -TWO63 <= v < TWO63
    ensures Strtol(Pad(SignedText(v), width, left, zero), 10).0 == v
            <==> v != -TWO63 && !ZerosBeforeSign(v, width, left, zero)
  {
    var s, n := Pad(SignedText(v), width, left, zero), width - |SignedText(v)|;
    if v >= 0 {
      var i, end := PaddedNumeral(v, 10, width, left, zero);
      PositiveReads(s, i, end, 10);
    } else if ZerosBeforeSign(v, width, left, zero) {
      assert s[n] == SignedText(v)[0] == '-';
      ZerosHide(s, n);
    } else {
      NegativePadded(v, width, left, zero);
    }
  }

  /** Where a text that does not start with a blank stands in its padding of blanks. */
  lemma PaddedAt(t: string, width: nat, left: bool, zero: bool) returns (i: nat)
    requires !(zero && !left && width > |t|)
    ensures var s := Pad(t, width, left, zero);
            && i + |t| <= |s| && s[i..i + |t|] == t && (forall k | 0 <= k < i :: s[k] == ' ')
            && (i + |t| == |s| || s[i + |t|] == ' ')
  {
    i := if left then 0 else |Pad(t, width, left, zero)| - |t|;
  }

  lemma NegativeTextPadded(ds: string, v: int, base: nat, width: nat, left: bool, zero: bool)
    requires BaseOk(base) && -TWO63 < v < 0 && ds != [] && DigitsOf(ds, base) && Value(ds, base) == -v
    requires !(zero && !left && width > |"-" + ds|)
    ensures Strtol(Pad("-" + ds, width, left, zero), base).0 == v
  {
    var t := "-" + ds;
    var s := Pad(t, width, left, zero);
    var i := PaddedAt(t, width, left, zero);
    assert s[i] == s[i..i + |t|][0] && t[1..] == ds;
    assert s[i + 1..i + 1 + |ds|] == s[i..i + |t|][1..];
    SignAfter(s, i, ds, v, base);
  }

  lemma MinimumPadded(width: nat, left: bool, zero: bool)
    requires !(zero && !left && width > 2)
    ensures Strtol(Pad("-(", width, left, zero), 10).0 == 0
  {
    var t := "-(";
    var s := Pad(t, width, left, zero);
    var i := PaddedAt(t, width, left, zero);
    assert s[i] == s[i..i + 2][0] && s[i + 1] == s[i..i + 2][1];
    OddMinimumReadsZero(s, i);
  }

  lemma NegativePadded(v: int, width: nat, left: bool, zero: bool)
    requires -TWO63 <= v < 0 && !ZerosBeforeSign(v, width, left, zero)
    ensures Strtol(Pad(SignedText(v), width, left, zero), 10).0 == if v == -TWO63 then 0 else v
  {
    if v == -TWO63 {
      MinimumPadded(width, left, zero);
    } else {
      DigitsAreWorth(-v, 10);
      NegativeTextPadded(Digits(-v, 10), v, 10, width, left, zero);
    }
  }

  // ---------------------------------------------------------------------------
  // The conversions themselves
  // ---------------------------------------------------------------------------

  /** The argument a conversion prints, after those its stars take. */
  function Printed(s: Spec, args: Args, k: nat): Arg {
    args(k + Star(s.width) + Star(s.prec))
  }

  function BaseOf(conv: char): nat {
    if conv == 'o' then 8 else if conv == 'x' then 16 else 10
  }

  lemma UnsignedBody(s: Spec, prec: Option<nat>, a: Arg)
    requires s.conv == 'u' || s.conv == 'o' || s.conv == 'x'
    ensures Body(s.conv, s.len, prec, a) == Digits(UnsignedArg(a.bits, s.len), BaseOf(s.conv))
  {
  }

  lemma RenderPads(s: Spec, args: Args, k: nat)
    requires Known(s.conv)
    ensures var (width, left) := WidthOf(s.width, s.left, args, k);
            Render(s, args, k)
            == Pad(Body(s.conv, s.len, PrecisionOf(s.prec, args, k + Star(s.width)), Printed(s, args, k)),
                   width, left, s.zero)
  {
  }

  /** Every known conversion prints the larger of its width and its text. */
  lemma RenderedLength(s: Spec, args: Args, k: nat)
    requires Known(s.conv)
    ensures var width, body := WidthOf(s.width, s.left, args, k).0,
                               Body(s.conv, s.len, PrecisionOf(s.prec, args, k + Star(s.width)), Printed(s, args, k));
            |Render(s, args, k)| == if width > |body| then width else |body|
  {
    RenderPads(s, args, k);
    var w := WidthOf(s.width, s.left, args, k);
    PaddedLength(Body(s.conv, s.len, PrecisionOf(s.prec, args, k + Star(s.width)), Printed(s, args, k)),
                 w.0, w.1, s.zero);
  }

  /** Main theorem: %u, %o and %x, with any flags, width, precision and length, parse back to the argument. */
  lemma UnsignedConversionParsesBack(s: Spec, args: Args, k: nat)
    requires s.conv == 'u' || s.conv == 'o' || s.conv == 'x'
    ensures Strtoul(Render(s, args, k), BaseOf(s.conv)).0 == UnsignedArg(Printed(s, args, k).bits, s.len)
  {
    var w := WidthOf(s.width, s.left, args, k);
    RenderPads(s, args, k);
    UnsignedBody(s, PrecisionOf(s.prec, args, k + Star(s.width)), Printed(s, args, k));
    UnsignedParsesBack(UnsignedArg(Printed(s, args, k).bits, s.len), BaseOf(s.conv), w.0, w.1, s.zero);
  }

  /**
   Main theorem: %d and %i, with any flags, width, precision and length, parse back to the
   argument if and only if it is not the 64-bit minimum and no zeros precede its minus sign.
   */
  lemma SignedConversionParsesBackIff(s: Spec, args: Args, k: nat)
    requires s.conv == 'd' || s.conv == 'i'
    ensures var v, w := SignedArg(Printed(s, args, k).bits, s.len), WidthOf(s.width, s.left, args, k);
            Strtol(Render(s, args, k), 10).0 == v <==> v != -TWO63 && !ZerosBeforeSign(v, w.0, w.1, s.zero)
  {
    var v, w := SignedArg(Printed(s, args, k).bits, s.len), WidthOf(s.width, s.left, args, k);
    RenderPads(s, args, k);
    assert Body(s.conv, s.len, PrecisionOf(s.prec, args, k + Star(s.width)), Printed(s, args, k)) == SignedText(v);
    SignedParsesBackIff(v, w.0, w.1, s.zero);
  }
}
