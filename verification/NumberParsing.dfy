/**
 The string-to-integer parsers, and the theorem that they undo the printers.
 A C string is a sequence without its terminator; reading at its end yields NUL.
 */
module NumberParsing {
  import opened Numbers

  function At(s: string, i: nat): char {
    if i < |s| then s[i] else NUL
  }

  predicate IsSpace(c: char) {
    c == ' ' || c == '\t' || c == '\n' || c == '\r' || c == 12 as char || c == 11 as char
  }

  function SkipSpace(s: string, i: nat): (r: nat)
    requires i <= |s|
    ensures i <= r <= |s|
    decreases |s| - i
  {
    if i < |s| && IsSpace(s[i]) then SkipSpace(s, i + 1) else i
  }

  predicate HexPrefix(s: string, i: nat) {
    At(s, i) == '0' && (At(s, i + 1) == 'x' || At(s, i + 1) == 'X')
  }

  /** No character is a digit of a base below one, so those all read as base zero. */
  function Radix(base: int): nat {
    if base < 0 then 0 else base
  }

  /** Base detection: the base to use and where the digits start. */
  function Prefix(s: string, i: nat, base: int): (r: (nat, nat))
    requires i <= |s|
    ensures i <= r.1 <= |s|
  {
    if base == 0 then
      if HexPrefix(s, i) then (16, i + 2) else if At(s, i) == '0' then (8, i + 1) else (10, i)
    else if base == 16 && HexPrefix(s, i) then (16, i + 2)
    else (Radix(base), i)
  }

  /** End of the run of digits starting at i. */
  function DigitEnd(s: string, i: nat, base: nat): (r: nat)
    requires i <= |s|
    ensures i <= r <= |s|
    decreases |s| - i
  {
    if i < |s| && IsDigitOf(s[i], base) then DigitEnd(s, i + 1, base) else i
  }

  /** What the digit run is worth, and where it ends. */
  function Number(s: string, i: nat, base: int): (nat, nat)
    requires i <= |s|
  {
    var (b, start) := Prefix(s, i, base);
    var end := DigitEnd(s, start, b);
    (Value(s[start..end], b), end)
  }

  function Strtoul(s: string, base: int): (nat, nat) {
    var i := SkipSpace(s, 0);
    var (v, end) := Number(s, if At(s, i) == '+' then i + 1 else i, base);
    (v % TWO64, end)
  }

  function WithSign(v: nat, minus: bool): int {
    if minus then -(v as int) else v as int
  }

  function Strtol(s: string, base: int): (int, nat) {
    var i := SkipSpace(s, 0);
    var signed := At(s, i) == '-' || At(s, i) == '+';
    var (v, end) := Number(s, if signed then i + 1 else i, base);
    (Wrap64(WithSign(v, At(s, i) == '-')), end)
  }

  // ---------------------------------------------------------------------------
  // The loops
  // ---------------------------------------------------------------------------

  lemma ModStep(x: int, b: int, d: int)
    ensures ((x % TWO64) * b + d) % TWO64 == (x * b + d) % TWO64
  {
    var q := x / TWO64;
    assert x * b + d == (x % TWO64) * b + d + (q * b) * TWO64;
    ModAddMultiple((x % TWO64) * b + d, q * b);
  }

  lemma ModAddMultiple(y: int, k: int)
    ensures (y + k * TWO64) % TWO64 == y % TWO64
  {
  }

  lemma WrapIsCongruent(x: int) returns (k: int)
    ensures Wrap64(x) == x - k * TWO64
  {
    k := (x + TWO63) / TWO64;
  }

  lemma WrapStep(x: int, b: int, d: int)
    ensures Wrap64(Wrap64(x) * b + d) == Wrap64(x * b + d)
  {
    var k := WrapIsCongruent(x);
    assert Wrap64(x) * b + d == x * b + d + (-k * b) * TWO64;
    ModAddMultiple(x * b + d + TWO63, -k * b);
  }

  lemma DigitEndIs(s: string, i: nat, base: nat, end: nat)
    requires i <= end <= |s| && (forall k | i <= k < end :: IsDigitOf(s[k], base))
    requires end < |s| ==> !IsDigitOf(s[end], base)
    ensures DigitEnd(s, i, base) == end
    decreases end - i
  {
    if i < end {
      DigitEndIs(s, i + 1, base, end);
    }
  }

  lemma ValueNext(s: string, i: nat, j: nat, base: nat)
    requires i <= j < |s|
    ensures Value(s[i..j + 1], base) == Value(s[i..j], base) * base + DigitValue(s[j])
  {
    assert s[i..j + 1] == s[i..j] + [s[j]];
    ValueSnoc(s[i..j], s[j], base);
  }

  method SkipPrefix(s: string, i: nat, base: int) returns (b: nat, start: nat)
    requires i <= |s|
    ensures (b, start) == Prefix(s, i, base)
  {
    b, start := Radix(base), i;
    if base == 0 {
      if At(s, i) == '0' {
        if At(s, i + 1) == 'x' || At(s, i + 1) == 'X' {
          b, start := 16, i + 2;
        } else {
          b, start := 8, i + 1;
        }
      } else {
        b := 10;
      }
    } else if base == 16 && At(s, i) == '0' && (At(s, i + 1) == 'x' || At(s, i + 1) == 'X') {
      start := i + 2;
    }
  }

  method ParseUnsigned(s: string, base: int) returns (acc: nat, end: nat)
    ensures (acc, end) == Strtoul(s, base)
  {
    var i := 0;
    while i < |s| && IsSpace(s[i])
      invariant i <= |s| && SkipSpace(s, i) == SkipSpace(s, 0)
    {
      i := i + 1;
    }
    if At(s, i) == '+' {
      i := i + 1;
    }
    var b, start := SkipPrefix(s, i, base);
    acc, end := 0, start;
    while end < |s|
      invariant start <= end <= |s| && acc == Value(s[start..end], b) % TWO64
      invariant DigitEnd(s, start, b) == DigitEnd(s, end, b)
      decreases |s| - end
    {
      if !IsDigitOf(s[end], b) {
        break;
      }
      ValueNext(s, start, end, b);
      ModStep(Value(s[start..end], b), b, DigitValue(s[end]));
      acc := (acc * b + DigitValue(s[end])) % TWO64;
      end := end + 1;
    }
  }

  method ParseSigned(s: string, base: int) returns (r: int, end: nat)
    ensures (r, end) == Strtol(s, base)
  {
    var i, neg := 0, false;
    while i < |s| && IsSpace(s[i])
      invariant i <= |s| && SkipSpace(s, i) == SkipSpace(s, 0)
    {
      i := i + 1;
    }
    if At(s, i) == '-' {
      neg := true;
      i := i + 1;
    } else if At(s, i) == '+' {
      i := i + 1;
    }
    var b, start := SkipPrefix(s, i, base);
    var acc: int;
    acc, end := SignedDigits(s, start, b);
    r := if neg then Wrap64(-acc) else acc;
    NegatedWrap(Value(s[start..end], b));
  }

  lemma NegatedWrap(v: int)
    ensures Wrap64(-Wrap64(v)) == Wrap64(-v)
  {
    WrapStep(v, -1, 0);
  }

  /** The digit loop of `strtol`, in wrapping 64-bit arithmetic. */
  method SignedDigits(s: string, start: nat, b: nat) returns (acc: int, end: nat)
    requires start <= |s|
    ensures start <= end <= |s| && end == DigitEnd(s, start, b) && acc == Wrap64(Value(s[start..end], b))
  {
    acc, end := 0, start;
    while end < |s|
      invariant start <= end <= |s| && acc == Wrap64(Value(s[start..end], b))
      invariant DigitEnd(s, start, b) == DigitEnd(s, end, b)
      decreases |s| - end
    {
      if !IsDigitOf(s[end], b) {
        break;
      }
      ValueNext(s, start, end, b);
      WrapStep(Value(s[start..end], b), b, DigitValue(s[end]));
      acc := Wrap64(acc * b + DigitValue(s[end]));
      end := end + 1;
    }
  }

  // ---------------------------------------------------------------------------
  // Round trips
  // ---------------------------------------------------------------------------

  lemma {:induction false} SkipSpaceIs(s: string, i: nat, n: nat)
    requires i <= n < |s| && (forall k | i <= k < n :: s[k] == ' ') && !IsSpace(s[n])
    ensures SkipSpace(s, i) == n
    decreases n - i
  {
    if i < n {
      SkipSpaceIs(s, i + 1, n);
    }
  }

  /** s[i..end] is a numeral that nothing after it can extend. */
  predicate NumeralAt(s: string, i: nat, end: nat, base: nat) {
    && i < end <= |s| && (end == |s| || s[end] == ' ' || s[end] == '-')
    && forall k | i <= k < end :: LowerHex(s[k]) && DigitValue(s[k]) < base
  }

  /** It is read whole, and nothing else is. */
  lemma NumberAt(s: string, i: nat, end: nat, base: nat)
    requires BaseOk(base) && NumeralAt(s, i, end, base)
    ensures Number(s, i, base) == (Value(s[i..end], base), end)
  {
    assert !HexPrefix(s, i);
    DigitEndIs(s, i, base, end);
  }

  lemma SkipsTo(s: string, i: nat, end: nat, base: nat)
    requires NumeralAt(s, i, end, base) && forall k | 0 <= k < i :: s[k] == ' '
    ensures SkipSpace(s, 0) == i && At(s, i) != '+' && At(s, i) != '-'
  {
    SkipSpaceIs(s, 0, i);
  }

  lemma ModSmall(v: int)
    requires 0 <= v < TWO64
    ensures v % TWO64 == v
  {
  }

  lemma WrapSmall(v: int)
    requires -TWO63 <= v < TWO63
    ensures Wrap64(v) == v
  {
    ModSmall(v + TWO63);
  }

  lemma UnsignedReads(s: string, i: nat, end: nat, base: nat)
    requires BaseOk(base) && NumeralAt(s, i, end, base) && forall k | 0 <= k < i :: s[k] == ' '
    requires Value(s[i..end], base) < TWO64
    ensures Strtoul(s, base) == (Value(s[i..end], base), end)
  {
    SkipsTo(s, i, end, base);
    var n := Number(s, i, base);
    NumberAt(s, i, end, base);
    ModSmall(n.0);
    assert Strtoul(s, base) == (n.0 % TWO64, n.1);
  }

  lemma PositiveReads(s: string, i: nat, end: nat, base: nat)
    requires BaseOk(base) && NumeralAt(s, i, end, base) && forall k | 0 <= k < i :: s[k] == ' '
    requires Value(s[i..end], base) < TWO63
    ensures Strtol(s, base) == (Value(s[i..end], base), end)
  {
    SkipsTo(s, i, end, base);
    var n := Number(s, i, base);
    NumberAt(s, i, end, base);
    WrapSmall(n.0);
    assert Strtol(s, base) == (Wrap64(n.0), n.1);
  }

  lemma NegativeReads(s: string, i: nat, end: nat, base: nat)
    requires BaseOk(base) && NumeralAt(s, i + 1, end, base) && s[i] == '-' && forall k | 0 <= k < i :: s[k] == ' '
    requires Value(s[i + 1..end], base) <= TWO63
    ensures Strtol(s, base) == (-(Value(s[i + 1..end], base) as int), end)
  {
    SkipSpaceIs(s, 0, i);
    var n := Number(s, i + 1, base);
    NumberAt(s, i + 1, end, base);
    WrapSmall(-(n.0 as int));
    assert Strtol(s, base) == (Wrap64(-(n.0 as int)), n.1);
  }

  /** The digits of v, standing anywhere, are a numeral worth v. */
  lemma PrintedNumeral(s: string, i: nat, v: nat, base: nat)
    requires BaseOk(base) && i + |Digits(v, base)| <= |s| && s[i..i + |Digits(v, base)|] == Digits(v, base)
    requires i + |Digits(v, base)| == |s| || s[i + |Digits(v, base)|] == ' '
    ensures NumeralAt(s, i, i + |Digits(v, base)|, base)
    ensures Value(s[i..i + |Digits(v, base)|], base) == v
  {
    var ds := Digits(v, base);
    DigitsAreDigits(v, base);
    ValueOfDigits(v, base);
    forall k | i <= k < i + |ds|
      ensures LowerHex(s[k]) && DigitValue(s[k]) < base
    {
      assert s[k] == ds[k - i];
    }
  }

  /** Main theorem: `strtoul` undoes `ultoa` for every 64-bit value and base, consuming the whole string. */
  lemma UnsignedRoundTrip(v: nat, base: nat)
    requires v < TWO64 && BaseOk(base)
    ensures Strtoul(Digits(v, base), base) == (v, |Digits(v, base)|)
  {
    var ds := Digits(v, base);
    assert ds[0..|ds|] == ds;
    PrintedNumeral(ds, 0, v, base);
    UnsignedReads(ds, 0, |ds|, base);
  }

  lemma NegativeTextReads(s: string, v: nat, base: nat)
    requires BaseOk(base) && |s| > 1 && s[0] == '-' && NumeralAt(s, 1, |s|, base)
    requires Value(s[1..|s|], base) == v <= TWO63
    ensures Strtol(s, base) == (-(v as int), |s|)
  {
    NegativeReads(s, 0, |s|, base);
  }

  lemma NegatedNumeral(s: string, v: nat, base: nat)
    requires BaseOk(base) && s == ['-'] + Digits(v, base)
    ensures |s| > 1 && s[0] == '-' && NumeralAt(s, 1, |s|, base) && Value(s[1..|s|], base) == v
  {
    var ds := Digits(v, base);
    assert s[1..|s|] == ds && |s| == 1 + |ds|;
    PrintedNumeral(s, 1, v, base);
  }

  lemma NegativeRoundTrip(s: string, v: nat, base: nat)
    requires BaseOk(base) && v <= TWO63 && s == ['-'] + Digits(v, base)
    ensures Strtol(s, base) == (-(v as int), |s|)
  {
    NegatedNumeral(s, v, base);
    NegativeTextReads(s, v, base);
  }

  lemma PositiveRoundTrip(v: nat)
    requires v < TWO63
    ensures Strtol(Digits(v, 10), 10) == (v, |Digits(v, 10)|)
  {
    var ds := Digits(v, 10);
    assert ds[0..|ds|] == ds;
    PrintedNumeral(ds, 0, v, 10);
    PositiveReads(ds, 0, |ds|, 10);
  }

  /** Main theorem: `strtol` undoes base-ten `ltoa` for every 64-bit value, the minimum included. */
  lemma SignedRoundTrip(v: int)
    requires -TWO63 <= v < TWO63
    ensures Strtol(LtoaText(v, 10), 10) == (v, |LtoaText(v, 10)|)
  {
    if v < 0 {
      NegativeRoundTrip(LtoaText(v, 10), -v, 10);
    } else {
      ModSmall(v);
      PositiveRoundTrip(v);
    }
  }

  lemma PatternOf(v: int)
    requires -TWO63 <= v < TWO63
    ensures 0 <= v % TWO64 < TWO64 && Wrap64(v % TWO64) == v
  {
    if v < 0 {
      ModAddMultiple(v, 1);
      ModSmall(v + TWO64);
      ModAddMultiple(v + TWO63, 1);
      ModSmall(v + TWO63);
    } else {
      ModSmall(v);
      WrapSmall(v);
    }
  }

  /** In the other bases `ltoa` prints the 64-bit pattern, the minimum's too, and `strtoul` recovers exactly that. */
  lemma PatternRoundTrip(v: int, base: nat)
    requires -TWO63 <= v < TWO63 && BaseOk(base) && base != 10
    ensures Strtoul(LtoaText(v, base), base) == (v % TWO64, |LtoaText(v, base)|)
    ensures Wrap64(v % TWO64) == v
  {
    PatternOf(v);
    assert LtoaText(v, base) == Digits(v % TWO64, base);
    UnsignedRoundTrip(v % TWO64, base);
  }
}
