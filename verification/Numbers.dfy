/**
 Integers as text: positional notation, and the kernel's printers and parsers
 (`ltoa`, `ultoa`, `strtol`, `strtoul`) proved against it and against each other.
 */
module Numbers {

  const TWO63: int := 0x8000_0000_0000_0000
  const TWO64: int := 0x1_0000_0000_0000_0000

  /** Two's-complement value of the low 64 bits. */
  function Wrap64(x: int): int {
    (x + TWO63) % TWO64 - TWO63
  }

  const NUL: char := '\0'

  /** The C string held at the start of a buffer. */
  function Text(s: string): string {
    if s == [] || s[0] == NUL then [] else [s[0]] + Text(s[1..])
  }

  // ---------------------------------------------------------------------------
  // Positional notation
  // ---------------------------------------------------------------------------

  predicate BaseOk(base: int) {
    2 <= base <= 16
  }

  const LOWER := "0123456789abcdef"

  function DigitChar(d: nat): char
    requires d < 16
  {
    (if d < 10 then '0' as int + d else 'a' as int + (d - 10)) as char
  }

  /** The digit table of the printers. */
  lemma TableIsDigitChar(d: nat)
    requires d < 16
    ensures LOWER[d] == DigitChar(d)
  {
  }

  /** Most significant digit first, no leading zeros. */
  function Digits(v: nat, base: nat): (s: string)
    requires BaseOk(base)
    ensures s != []
  {
    (if v < base then [] else Digits(v / base, base)) + [DigitChar(v % base)]
  }

  predicate IsDigit(c: char) {
    '0' <= c <= '9'
  }

  predicate LowerHex(c: char) {
    '0' <= c <= '9' || 'a' <= c <= 'f'
  }

  /** Value of a letter or digit as the parsers see it; 99 for any other character. */
  function DigitValue(c: char): nat {
    if '0' <= c <= '9' then c as int - '0' as int
    else if 'a' <= c <= 'z' then c as int - 'a' as int + 10
    else if 'A' <= c <= 'Z' then c as int - 'A' as int + 10
    else 99
  }

  predicate IsDigitOf(c: char, base: int) {
    DigitValue(c) < base && DigitValue(c) < 36
  }

  /** Horner's rule over the digit values. */
  function Value(s: string, base: nat): nat {
    if s == [] then 0 else Value(s[..|s| - 1], base) * base + DigitValue(s[|s| - 1])
  }

  lemma DigitCharIs(d: nat)
    requires d < 16
    ensures LowerHex(DigitChar(d)) && DigitValue(DigitChar(d)) == d
  {
  }

  lemma ValueSnoc(s: string, c: char, base: nat)
    ensures Value(s + [c], base) == Value(s, base) * base + DigitValue(c)
  {
    assert (s + [c])[..|s + [c]| - 1] == s;
  }

  /** The last digit and what precedes it, in terms of quotient and remainder. */
  lemma DigitsUnfold(v: nat, base: nat, q: nat, r: nat)
    requires BaseOk(base) && q == v / base && r == v % base
    ensures v == q * base + r && r < base && (v < base <==> q == 0) && (q > 0 ==> q < v)
    ensures Digits(v, base) == (if q == 0 then [] else Digits(q, base)) + [DigitChar(r)]
  {
    Quotient(v, base);
  }

  lemma Quotient(v: nat, b: nat)
    requires 2 <= b
    ensures v == (v / b) * b + v % b
    ensures v < b <==> v / b == 0
    ensures v / b > 0 ==> v / b < v
  {
    var q := v / b;
    if q > 0 {
      assert q * b >= q * 2;
    }
  }

  /** The characters of a number printed in a base. */
  predicate DigitsOf(s: string, base: nat) {
    forall i | 0 <= i < |s| :: LowerHex(s[i]) && DigitValue(s[i]) < base
  }

  lemma {:induction false} DigitsAreDigits(v: nat, base: nat)
    requires BaseOk(base)
    ensures DigitsOf(Digits(v, base), base)
    decreases v
  {
    var q, r := v / base, v % base;
    DigitsUnfold(v, base, q, r);
    DigitCharIs(r);
    if q > 0 {
      DigitsAreDigits(q, base);
    }
  }

  /** Positional notation is faithful: the digits of v have value v. */
  lemma {:induction false} ValueOfDigits(v: nat, base: nat)
    requires BaseOk(base)
    ensures Value(Digits(v, base), base) == v
    decreases v
  {
    var q, r := v / base, v % base;
    DigitsUnfold(v, base, q, r);
    DigitCharIs(r);
    if q > 0 {
      ValueOfDigits(q, base);
      ValueSnoc(Digits(q, base), DigitChar(r), base);
    } else {
      ValueSnoc([], DigitChar(r), base);
    }
  }

  /** The digits of v are digits, and worth v. */
  lemma DigitsAreWorth(v: nat, base: nat)
    requires BaseOk(base)
    ensures DigitsOf(Digits(v, base), base) && Value(Digits(v, base), base) == v
  {
    DigitsAreDigits(v, base);
    ValueOfDigits(v, base);
  }

  function Power(base: nat, n: nat): nat {
    if n == 0 then 1 else base * Power(base, n - 1)
  }

  /** At most n digits for values below the n-th power of the base, or of a smaller one. */
  lemma {:induction false} DigitsLength(v: nat, base: nat, low: nat, n: nat)
    requires BaseOk(base) && low <= base && n > 0 && v < Power(low, n)
    ensures |Digits(v, base)| <= n
    decreases n
  {
    var q, r := v / base, v % base;
    DigitsUnfold(v, base, q, r);
    if q > 0 {
      QuotientBelow(v, base, low, Power(low, n - 1));
      if n > 1 {
        DigitsLength(q, base, low, n - 1);
      }
    }
  }

  lemma QuotientBelow(v: nat, b: nat, low: nat, m: nat)
    requires 2 <= b && low <= b && v < low * m
    ensures v / b < m
  {
    assert low * m <= b * m;
    if v / b >= m {
      assert (v / b) * b >= m * b;
      Quotient(v, b);
      assert false;
    }
  }

  // ---------------------------------------------------------------------------
  // Printing
  // ---------------------------------------------------------------------------

  function Reversed<T>(s: seq<T>): (r: seq<T>)
    ensures |r| == |s| && forall i | 0 <= i < |s| :: r[i] == s[|s| - 1 - i]
  {
    if s == [] then [] else Reversed(s[1..]) + [s[0]]
  }

  /** Swap the ends inwards, as both printers do before returning. */
  method ReversePrefix(str: array<char>, n: nat)
    requires n <= str.Length
    modifies str
    ensures str[..n] == Reversed(old(str[..n])) && str[n..] == old(str[n..])
  {
    var i := 0;
    while i < n - 1 - i
      invariant 0 <= i && 2 * i <= n + 1
      invariant forall k | 0 <= k < n :: str[k] == if k < i || k >= n - i then old(str[n - 1 - k]) else old(str[k])
      invariant forall k | n <= k < str.Length :: str[k] == old(str[k])
    {
      str[i], str[n - 1 - i] := str[n - 1 - i], str[i];
      i := i + 1;
    }
    assert forall k | 0 <= k < n :: str[k] == old(str[..n])[n - 1 - k];
  }

  lemma TextOfPrefix(s: string, n: nat)
    requires n < |s| && s[n] == NUL && forall i | 0 <= i < n :: s[i] != NUL
    ensures Text(s) == s[..n]
    decreases n
  {
    if n > 0 {
      TextOfPrefix(s[1..], n - 1);
      assert s[..n] == [s[0]] + s[1..][..n - 1];
    }
  }

  /** The digit loop of both printers: least significant first. */
  method EmitDigits(str: array<char>, value: nat, base: nat) returns (p: nat)
    requires BaseOk(base) && |Digits(value, base)| < str.Length
    modifies str
    ensures p == |Digits(value, base)| && Reversed(str[..p]) == Digits(value, base)
  {
    ghost var all := Digits(value, base);
    var ud := value;
    p := 0;
    assert all + Reversed(str[..0]) == all;
    while true
      invariant 0 <= p < |all| && 0 <= ud
      invariant Digits(ud, base) + Reversed(str[..p]) == all
      decreases ud
    {
      var q, r := ud / base, ud % base;
      DigitsUnfold(ud, base, q, r);
      TableIsDigitChar(r);
      PutDigit(str, p, LOWER[r], if q == 0 then [] else Digits(q, base));
      p := p + 1;
      if q == 0 {
        break;
      }
      ud := q;
    }
    assert [] + Reversed(str[..p]) == all;
  }

  method PutDigit(str: array<char>, p: nat, c: char, ghost front: string)
    requires p < str.Length
    modifies str
    ensures front + Reversed(str[..p + 1]) == (front + [c]) + old(Reversed(str[..p]))
  {
    ghost var was := str[..p];
    str[p] := c;
    assert str[..p + 1] == was + [c];
    ReversedSnoc(was, c);
    assert front + ([c] + Reversed(was)) == (front + [c]) + Reversed(was);
  }

  /** Digits, an optional sign, a terminator, then the reversal. */
  method WriteDigits(str: array<char>, value: nat, base: nat, negative: bool)
    requires BaseOk(base) && |Digits(value, base)| + (if negative then 1 else 0) < str.Length
    modifies str
    ensures Text(str[..]) == (if negative then ['-'] else []) + Digits(value, base)
  {
    DigitsAreDigits(value, base);
    var p := EmitDigits(str, value, base);
    if negative {
      PutDigit(str, p, '-', []);
      assert [] + Reversed(str[..p + 1]) == Reversed(str[..p + 1]) && [] + ['-'] == ['-'];
      assert Reversed(str[..p + 1]) == ['-'] + Digits(value, base);
      Finish(str, p + 1, ['-'] + Digits(value, base));
    } else {
      assert [] + Digits(value, base) == Digits(value, base);
      Finish(str, p, Digits(value, base));
    }
  }

  /** Terminate and reverse. */
  method Finish(str: array<char>, p: nat, ghost text: string)
    requires p < str.Length && Reversed(str[..p]) == text && forall i | 0 <= i < |text| :: text[i] != NUL
    modifies str
    ensures Text(str[..]) == text
  {
    str[p] := NUL;
    ReversePrefix(str, p);
    assert str[p..][0] == NUL;
    assert str[..][..p] == text;
    TextOfPrefix(str[..], p);
  }

  lemma ReversedSnoc<T>(s: seq<T>, x: T)
    ensures Reversed(s + [x]) == [x] + Reversed(s)
  {
  }

  method Ultoa(value: nat, str: array<char>, base: int)
    requires value < TWO64 && str.Length > 0
    requires BaseOk(base) ==> |Digits(value, base)| < str.Length
    modifies str
    ensures Text(str[..]) == if BaseOk(base) then Digits(value, base) else ""
  {
    if base < 2 || base > 16 {
      str[0] := NUL;
      return;
    }
    WriteDigits(str, value, base, false);
    assert [] + Digits(value, base) == Digits(value, base);
  }

  /** Negating in 64 bits and reading the pattern as unsigned gives the magnitude, the minimum's too. */
  lemma Magnitude(value: int)
    requires -TWO63 <= value < 0
    ensures Wrap64(-value) % TWO64 == -value
  {
    if value == -TWO63 {
      assert Wrap64(TWO63) == -TWO63;
    } else {
      assert (-value + TWO63) % TWO64 == -value + TWO63;
    }
  }

  /** What `ltoa` prints: a sign only in base ten; other bases print the 64-bit pattern. */
  function LtoaText(value: int, base: int): string
    requires -TWO63 <= value < TWO63
  {
    if !BaseOk(base) then ""
    else if value < 0 && base == 10 then ['-'] + Digits(-value, base)
    else Digits(value % TWO64, base)
  }

  method Ltoa(value: int, str: array<char>, base: int)
    requires -TWO63 <= value < TWO63 && |LtoaText(value, base)| < str.Length
    modifies str
    ensures Text(str[..]) == LtoaText(value, base)
  {
    if base < 2 || base > 16 {
      str[0] := NUL;
      return;
    }
    var negative := value < 0 && base == 10;
    var ud := (if negative then Wrap64(-value) else value) % TWO64;
    if negative {
      Magnitude(value);
    }
    WriteDigits(str, ud, base, negative);
    assert [] + Digits(ud, base) == Digits(ud, base);
  }
}
