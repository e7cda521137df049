/** The texts the number parsers read: blanks, a sign, a mark of the base, digits, and what stops them. */
module NumberText {
  import opened Numbers
  import opened NumberParsing

  predicate Spacing(ws: string) {
    forall i | 0 <= i < |ws| :: ws[i] in " \t\n\r" || ws[i] as int in {11, 12}
  }

  /** The mark says base 16 or 8 when none is asked for; in base 16 it may be there too. */
  predicate Marks(base: int, mark: string, b: nat) {
    match mark
    case "0x" => base in {0, 16} && b == 16
    case "0X" => base in {0, 16} && b == 16
    case "0" => base == 0 && b == 8
    case "" => if base == 0 then b == 10 else base > 0 && b == base
    case _ => false
  }

  /** The value of a digit or letter in bases up to 36. */
  predicate DigitIn(c: char, b: nat) {
    || ('0' <= c <= '9' && c as int - 48 < b)
    || ('a' <= c <= 'z' && c as int - 87 < b)
    || ('A' <= c <= 'Z' && c as int - 55 < b)
  }

  /** The digits are all of them. */
  predicate DigitRun(b: nat, ds: string, rest: string) {
    (forall i | 0 <= i < |ds| :: DigitIn(ds[i], b)) && (rest != "" ==> !DigitIn(rest[0], b))
  }

  /** What follows the mark cannot be taken for a part of one. */
  predicate WholeMark(base: int, mark: string, tail: string) {
    && (mark == "" && base == 0 && tail != "" ==> tail[0] != '0')
    && (mark == "" && base == 16 && |tail| > 1 ==> !(tail[0] == '0' && tail[1] in "xX"))
    && (mark == "0" && tail != "" ==> tail[0] !in "xX")
  }

  /** The digits, and what follows them, cannot be taken for more digits, a mark, blanks or a sign. */
  predicate Delimited(base: int, b: nat, sign: string, mark: string, ds: string, rest: string) {
    && DigitRun(b, ds, rest) && WholeMark(base, mark, ds + rest)
    && (sign + mark + ds == "" && rest != "" ==> rest[0] !in " \t\n\r+-" && rest[0] as int !in {11, 12})
  }

  lemma DigitsAgree(c: char, b: nat)
    ensures DigitIn(c, b) <==> IsDigitOf(c, b)
  {
  }

  lemma {:induction false} SpacesSkipped(s: string, i: nat, n: nat)
    requires i <= n <= |s| && (forall k | i <= k < n :: IsSpace(s[k])) && (n < |s| ==> !IsSpace(s[n]))
    ensures SkipSpace(s, i) == n
    decreases n - i
  {
    if i < n {
      SpacesSkipped(s, i + 1, n);
    }
  }

  /** A text from position i on. */
  predicate From(s: string, i: nat, tail: string) {
    i <= |s| && s[i..] == tail
  }

  lemma SpacingSkipped(ws: string, tail: string)
    requires Spacing(ws) && (tail != "" ==> !IsSpace(tail[0]))
    ensures SkipSpace(ws + tail, 0) == |ws| && From(ws + tail, |ws|, tail)
  {
    var s := ws + tail;
    forall k | 0 <= k < |ws|
      ensures IsSpace(s[k])
    {
      assert s[k] == ws[k];
    }
    SpacesSkipped(s, 0, |ws|);
  }

  lemma FromAt(s: string, i: nat, tail: string, k: nat)
    requires From(s, i, tail)
    ensures At(s, i + k) == At(tail, k)
  {
  }

  lemma FromLater(s: string, i: nat, a: string, tail: string)
    requires From(s, i, a + tail)
    ensures From(s, i + |a|, tail) && s[i..i + |a|] == a
  {
    assert s[i..][|a|..] == tail;
    assert s[i..][..|a|] == a;
  }

  lemma MarkIsRead(s: string, i: nat, base: int, b: nat, mark: string, tail: string)
    requires Marks(base, mark, b) && WholeMark(base, mark, tail) && From(s, i, mark + tail)
    ensures Prefix(s, i, base) == (b, i + |mark|)
  {
    FromAt(s, i, mark + tail, 0);
    FromAt(s, i, mark + tail, 1);
    assert mark == "" ==> mark + tail == tail;
    if |mark| == 1 {
      assert At(mark + tail, 0) == '0' && At(mark + tail, 1) == At(tail, 0);
    } else if |mark| == 2 {
      assert At(mark + tail, 0) == '0' && At(mark + tail, 1) in "xX";
    }
  }

  lemma DigitsAreRead(s: string, i: nat, b: nat, ds: string, rest: string)
    requires DigitRun(b, ds, rest) && From(s, i, ds + rest)
    ensures i + |ds| <= |s| && DigitEnd(s, i, b) == i + |ds| && s[i..i + |ds|] == ds
  {
    FromLater(s, i, ds, rest);
    var end := i + |ds|;
    forall k | i <= k < end
      ensures IsDigitOf(s[k], b)
    {
      assert s[k] == s[i..end][k - i] == ds[k - i];
      DigitsAgree(s[k], b);
    }
    if end < |s| {
      assert s[end] == s[end..][0] == rest[0];
      DigitsAgree(s[end], b);
    }
    DigitEndIs(s, i, b, end);
  }

  lemma NumberFrom(s: string, i: nat, base: int, b: nat, start: nat, end: nat)
    requires i <= |s| && Prefix(s, i, base) == (b, start) && start <= |s| && DigitEnd(s, start, b) == end
    ensures Number(s, i, base) == (Value(s[start..end], b), end)
  {
  }

  lemma DigitsNumber(s: string, i: nat, base: int, b: nat, start: nat, ds: string, rest: string)
    requires i <= |s| && Prefix(s, i, base) == (b, start) && DigitRun(b, ds, rest) && From(s, start, ds + rest)
    ensures Number(s, i, base) == (Value(ds, b), start + |ds|)
  {
    DigitsAreRead(s, start, b, ds, rest);
    NumberFrom(s, i, base, b, start, start + |ds|);
  }

  lemma MarkThenDigits(s: string, i: nat, base: int, b: nat, mark: string, tail: string)
    requires Marks(base, mark, b) && WholeMark(base, mark, tail) && From(s, i, mark + tail)
    ensures Prefix(s, i, base) == (b, i + |mark|) && From(s, i + |mark|, tail)
  {
    MarkIsRead(s, i, base, b, mark, tail);
    FromLater(s, i, mark, tail);
  }

  lemma NumberIsRead(s: string, i: nat, base: int, b: nat, mark: string, ds: string, rest: string)
    requires Marks(base, mark, b) && WholeMark(base, mark, ds + rest) && DigitRun(b, ds, rest)
    requires From(s, i, mark + (ds + rest))
    ensures Number(s, i, base) == (Value(ds, b), i + |mark| + |ds|)
  {
    MarkThenDigits(s, i, base, b, mark, ds + rest);
    DigitsNumber(s, i, base, b, i + |mark|, ds, rest);
  }

  function TextOf(ws: string, sign: string, mark: string, ds: string, rest: string): string {
    ws + (sign + (mark + (ds + rest)))
  }

  /** Where the digits and their mark stand, and what a reader finds before them. */
  lemma SignPlace(base: int, b: nat, ws: string, sign: string, mark: string, ds: string, rest: string)
    requires Spacing(ws) && sign in {"", "+", "-"} && Marks(base, mark, b)
    requires Delimited(base, b, sign, mark, ds, rest)
    ensures var s := TextOf(ws, sign, mark, ds, rest);
            && SkipSpace(s, 0) == |ws| && From(s, |ws| + |sign|, mark + (ds + rest))
            && (At(s, |ws|) == '+' <==> sign == "+") && (At(s, |ws|) == '-' <==> sign == "-")
  {
    var tail := mark + (ds + rest);
    NoSpaceAhead(base, b, sign, mark, ds, rest);
    SpacingSkipped(ws, sign + tail);
    FromAt(ws + (sign + tail), |ws|, sign + tail, 0);
    FromLater(ws + (sign + tail), |ws|, sign, tail);
    assert sign == "" ==> sign + tail == tail;
  }

  lemma NoSpaceAhead(base: int, b: nat, sign: string, mark: string, ds: string, rest: string)
    requires sign in {"", "+", "-"} && Marks(base, mark, b) && Delimited(base, b, sign, mark, ds, rest)
    ensures var tail := mark + (ds + rest);
            && (sign + tail != "" ==> !IsSpace((sign + tail)[0]))
            && (sign == "" ==> At(tail, 0) != '+' && At(tail, 0) != '-')
  {
    var tail := mark + (ds + rest);
    if sign == "" {
      assert sign + tail == tail;
      if mark != "" {
        assert tail[0] == '0';
      } else {
        assert tail == ds + rest;
        if ds != "" {
          assert tail[0] == ds[0] && DigitIn(ds[0], b);
        } else {
          assert tail == rest;
        }
      }
    }
  }

  /** Such a text, with what its digits are worth. */
  ghost predicate Reads(base: int, ws: string, sign: string, mark: string, ds: string, rest: string, v: nat) {
    && Spacing(ws) && sign in {"", "+", "-"}
    && exists b: nat :: Marks(base, mark, b) && Delimited(base, b, sign, mark, ds, rest) && v == Value(ds, b)
  }

  lemma Placed(base: int, ws: string, sign: string, mark: string, ds: string, rest: string, v: nat)
    requires Reads(base, ws, sign, mark, ds, rest, v)
    ensures var s := TextOf(ws, sign, mark, ds, rest);
            && SkipSpace(s, 0) == |ws| && |ws| + |sign| <= |s|
            && (At(s, |ws|) == '+' <==> sign == "+") && (At(s, |ws|) == '-' <==> sign == "-")
            && Number(s, |ws| + |sign|, base) == (v, |ws + sign + mark + ds|)
  {
    var b: nat :| Marks(base, mark, b) && Delimited(base, b, sign, mark, ds, rest) && v == Value(ds, b);
    SignPlace(base, b, ws, sign, mark, ds, rest);
    NumberIsRead(TextOf(ws, sign, mark, ds, rest), |ws| + |sign|, base, b, mark, ds, rest);
    Lengths(ws, sign, mark, ds);
  }

  lemma Lengths(ws: string, sign: string, mark: string, ds: string)
    ensures |ws + sign + mark + ds| == |ws| + |sign| + |mark| + |ds|
  {
  }

  lemma UnsignedOf(s: string, base: int, i: nat, plus: bool, n: (nat, nat))
    requires SkipSpace(s, 0) == i && (At(s, i) == '+' <==> plus)
    requires i + (if plus then 1 else 0) <= |s| && n == Number(s, i + (if plus then 1 else 0), base)
    ensures Strtoul(s, base) == (n.0 % TWO64, n.1)
  {
  }

  lemma SignedOf(s: string, base: int, i: nat, at: nat, minus: bool, n: (nat, nat))
    requires SkipSpace(s, 0) == i && at <= |s| && n == Number(s, at, base) && (minus <==> At(s, i) == '-')
    requires at == if minus || At(s, i) == '+' then i + 1 else i
    ensures Strtol(s, base) == (Wrap64(WithSign(n.0, minus)), n.1)
  {
  }

  /** `strtoul` reads blanks, an optional plus, an optional mark and all digits of the base, modulo 2^64. */
  lemma UnsignedTextIsRead(base: int, ws: string, sign: string, mark: string, ds: string, rest: string, v: nat)
    requires Reads(base, ws, sign, mark, ds, rest, v) && sign != "-"
    ensures Strtoul(TextOf(ws, sign, mark, ds, rest), base)
            == (v % 0x1_0000_0000_0000_0000, |ws + sign + mark + ds|)
  {
    Placed(base, ws, sign, mark, ds, rest, v);
    UnsignedOf(TextOf(ws, sign, mark, ds, rest), base, |ws|, sign == "+", (v, |ws + sign + mark + ds|));
  }

  /** A 64-bit integer that is v, or -v, modulo 2^64. */
  predicate Means(r: int, v: nat, minus: bool) {
    && -0x8000_0000_0000_0000 <= r < 0x8000_0000_0000_0000
    && (if minus then r + v else r - v) % 0x1_0000_0000_0000_0000 == 0
  }

  /** `strtol` takes a minus too, and gives the value's 64-bit two's complement. */
  lemma SignedTextIsRead(base: int, ws: string, sign: string, mark: string, ds: string, rest: string, v: nat)
    requires Reads(base, ws, sign, mark, ds, rest, v)
    ensures var (r, end) := Strtol(TextOf(ws, sign, mark, ds, rest), base);
            end == |ws + sign + mark + ds| && Means(r, v, sign == "-")
  {
    Placed(base, ws, sign, mark, ds, rest, v);
    var s, end := TextOf(ws, sign, mark, ds, rest), |ws + sign + mark + ds|;
    SignedOf(s, base, |ws|, |ws| + |sign|, sign == "-", (v, end));
    Wraps(v, sign == "-");
  }

  lemma Wraps(v: nat, minus: bool)
    ensures Means(Wrap64(WithSign(v, minus)), v, minus)
  {
    var k := WrapIsCongruent(WithSign(v, minus));
    ModAddMultiple(0, -k);
    ModAddMultiple(0, k);
  }
}
