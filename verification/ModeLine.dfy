/** The first line of the mode-selection file: `WxH`, or a bare mode index. */
module ModeLine {
  import opened Numbers

  const LIMIT := 100000

  datatype Request = Unparsed | Size(width: nat, height: nat) | Index(index: nat)

  predicate Blank(c: char) {
    c == ' ' || c == '\t'
  }

  predicate Cross(c: char) {
    c == 'x' || c == 'X'
  }

  /** What may follow the request: the end of the text, a line end or a blank. */
  predicate Ends(b: string, i: nat) {
    i < |b| ==> b[i] == '\r' || b[i] == '\n' || Blank(b[i])
  }

  function BlankEnd(b: string, i: nat): (e: nat)
    requires i <= |b|
    ensures i <= e <= |b|
    decreases |b| - i
  {
    if i < |b| && Blank(b[i]) then BlankEnd(b, i + 1) else i
  }

  function RunEnd(b: string, i: nat): (e: nat)
    requires i <= |b|
    ensures i <= e <= |b|
    decreases |b| - i
  {
    if i < |b| && IsDigit(b[i]) then RunEnd(b, i + 1) else i
  }

  function Number(b: string, i: nat, j: nat): nat
    requires i <= j <= |b|
  {
    Value(b[i..j], 10)
  }

  /** The parser as a reading of the text. */
  function ParseLine(b: string): Request {
    var s := BlankEnd(b, 0);
    var e := RunEnd(b, s);
    if e == s || Number(b, s, e) > LIMIT then Unparsed
    else if e < |b| && Cross(b[e]) then
      var f := RunEnd(b, e + 1);
      if f == e + 1 || Number(b, e + 1, f) > LIMIT || !Ends(b, f) || Number(b, s, e) == 0 || Number(b, e + 1, f) == 0
      then Unparsed
      else Size(Number(b, s, e), Number(b, e + 1, f))
    else if Ends(b, e) then Index(Number(b, s, e))
    else Unparsed
  }

  // ---------------------------------------------------------------------------
  // The parsing loops
  // ---------------------------------------------------------------------------

  lemma NumberStep(b: string, i: nat, j: nat)
    requires i <= j < |b| && IsDigit(b[j])
    ensures Number(b, i, j + 1) == Number(b, i, j) * 10 + DigitValue(b[j])
  {
    assert b[i..j + 1] == b[i..j] + [b[j]];
    ValueSnoc(b[i..j], b[j], 10);
  }

  lemma {:induction false} NumberGrows(b: string, i: nat, j: nat, e: nat)
    requires i <= j <= e <= |b| && forall k | j <= k < e :: IsDigit(b[k])
    ensures Number(b, i, j) <= Number(b, i, e)
    decreases e - j
  {
    if j < e {
      NumberStep(b, i, j);
      NumberGrows(b, i, j + 1, e);
    }
  }

  lemma {:induction false} RunEndIs(b: string, i: nat, j: nat)
    requires i <= j <= |b| && (forall k | i <= k < j :: IsDigit(b[k])) && (j < |b| ==> !IsDigit(b[j]))
    ensures RunEnd(b, i) == j
    decreases j - i
  {
    if i < j {
      RunEndIs(b, i + 1, j);
    }
  }

  lemma {:induction false} RunIsDigits(b: string, i: nat)
    requires i <= |b|
    ensures forall k | i <= k < RunEnd(b, i) :: IsDigit(b[k])
    ensures RunEnd(b, i) < |b| ==> !IsDigit(b[RunEnd(b, i)])
    decreases |b| - i
  {
    if i < |b| && IsDigit(b[i]) {
      RunIsDigits(b, i + 1);
    }
  }

  lemma {:induction false} BlankEndIs(b: string, i: nat, j: nat)
    requires i <= j <= |b| && (forall k | i <= k < j :: Blank(b[k])) && (j < |b| ==> !Blank(b[j]))
    ensures BlankEnd(b, i) == j
    decreases j - i
  {
    if i < j {
      BlankEndIs(b, i + 1, j);
    }
  }

  lemma {:induction false} RunOfBlanks(b: string, i: nat)
    requires i <= |b|
    ensures forall k | i <= k < BlankEnd(b, i) :: Blank(b[k])
    ensures BlankEnd(b, i) < |b| ==> !Blank(b[BlankEnd(b, i)])
    decreases |b| - i
  {
    if i < |b| && Blank(b[i]) {
      RunOfBlanks(b, i + 1);
    }
  }

  /** A digit loop; `ok` is false when the value passed the limit, which stops it early. */
  method ReadNumber(b: string, start: nat) returns (ok: bool, v: nat, end: nat)
    requires start <= |b|
    ensures ok <==> Number(b, start, RunEnd(b, start)) <= LIMIT
    ensures ok ==> end == RunEnd(b, start) && v == Number(b, start, end)
  {
    RunIsDigits(b, start);
    v, end := 0, start;
    while end < |b| && IsDigit(b[end])
      invariant start <= end <= RunEnd(b, start) && v == Number(b, start, end) <= LIMIT
      invariant forall k | start <= k < end :: IsDigit(b[k])
      decreases |b| - end
    {
      NumberStep(b, start, end);
      v := v * 10 + DigitValue(b[end]);
      if v > LIMIT {
        NumberGrows(b, start, end + 1, RunEnd(b, start));
        return false, v, end;
      }
      end := end + 1;
    }
    RunEndIs(b, start, end);
    ok := true;
  }

  method ModeselParse(b: string) returns (r: Request)
    ensures r == ParseLine(b)
  {
    var i: nat := 0;
    while i < |b| && Blank(b[i])
      invariant i <= |b| && forall k | 0 <= k < i :: Blank(b[k])
    {
      i := i + 1;
    }
    BlankEndIs(b, 0, i);
    var ok, a, e := ReadNumber(b, i);
    if !ok || e == i {
      return Unparsed;
    }
    if e < |b| && Cross(b[e]) {
      var ok2, c, f := ReadNumber(b, e + 1);
      if !ok2 || f == e + 1 {
        return Unparsed;
      }
      if f < |b| && b[f] != '\r' && b[f] != '\n' && b[f] != ' ' && b[f] != '\t' {
        return Unparsed;
      }
      if a == 0 || c == 0 {
        return Unparsed;
      }
      return Size(a, c);
    }
    if e < |b| && b[e] != '\r' && b[e] != '\n' && b[e] != ' ' && b[e] != '\t' {
      return Unparsed;
    }
    return Index(a);
  }

  // ---------------------------------------------------------------------------
  // What a line says
  // ---------------------------------------------------------------------------

  predicate NumberAt(b: string, i: nat, j: nat, v: nat) {
    && i < j <= |b| && (forall k | i <= k < j :: '0' <= b[k] <= '9') && Value(b[i..j], 10) == v <= 100000
  }

  predicate EndsAt(b: string, i: nat) {
    i >= |b| || b[i] in " \t\r\n"
  }

  /** Blanks up to i, the width up to j, a cross, the height up to k, then nothing but a terminator. */
  predicate SizeAt(b: string, i: nat, j: nat, k: nat, w: nat, h: nat) {
    && i < j < k <= |b| && (forall t | 0 <= t < i :: b[t] in " \t")
    && NumberAt(b, i, j, w) && b[j] in "xX" && NumberAt(b, j + 1, k, h) && EndsAt(b, k)
    && w > 0 && h > 0
  }

  predicate IndexAt(b: string, i: nat, j: nat, n: nat) {
    && i < j <= |b| && (forall t | 0 <= t < i :: b[t] in " \t")
    && NumberAt(b, i, j, n) && EndsAt(b, j)
  }

  lemma SizeIsSpelt(b: string, w: nat, h: nat)
    requires ParseLine(b) == Size(w, h)
    ensures exists i, j, k :: SizeAt(b, i, j, k, w, h)
  {
    var s := BlankEnd(b, 0);
    var e := RunEnd(b, s);
    var f := RunEnd(b, e + 1);
    RunOfBlanks(b, 0);
    RunIsDigits(b, s);
    RunIsDigits(b, e + 1);
    assert NumberAt(b, s, e, w) && NumberAt(b, e + 1, f, h);
    assert SizeAt(b, s, e, f, w, h);
  }

  lemma SpeltSizeIsRead(b: string, i: nat, j: nat, k: nat, w: nat, h: nat)
    requires SizeAt(b, i, j, k, w, h)
    ensures ParseLine(b) == Size(w, h)
  {
    BlankEndIs(b, 0, i);
    RunEndIs(b, i, j);
    RunEndIs(b, j + 1, k);
  }

  /** The parser takes a size request exactly when the line spells one. */
  lemma SizeExactlyWhenSpelt(b: string, w: nat, h: nat)
    ensures ParseLine(b) == Size(w, h) <==> exists i, j, k :: SizeAt(b, i, j, k, w, h)
  {
    if ParseLine(b) == Size(w, h) {
      SizeIsSpelt(b, w, h);
    }
    if i: nat, j: nat, k: nat :| SizeAt(b, i, j, k, w, h) {
      SpeltSizeIsRead(b, i, j, k, w, h);
    }
  }

  lemma IndexExactlyWhenSpelt(b: string, n: nat)
    ensures ParseLine(b) == Index(n) <==> exists i, j :: IndexAt(b, i, j, n)
  {
    if ParseLine(b) == Index(n) {
      var s := BlankEnd(b, 0);
      RunOfBlanks(b, 0);
      RunIsDigits(b, s);
      assert IndexAt(b, s, RunEnd(b, s), n);
    }
    if i: nat, j: nat :| IndexAt(b, i, j, n) {
      BlankEndIs(b, 0, i);
      RunEndIs(b, i, j);
    }
  }

  /** A decimal spelling of v, leading zeros allowed. */
  predicate Spells(d: string, v: nat) {
    d != [] && (forall i | 0 <= i < |d| :: IsDigit(d[i])) && Value(d, 10) == v
  }

  lemma DecimalDigitsSpell(d: string, v: nat)
    requires d != [] && DigitsOf(d, 10) && Value(d, 10) == v
    ensures Spells(d, v)
  {
  }

  lemma PlacedNumber(b: string, i: nat, d: string, v: nat)
    requires v <= LIMIT && Spells(d, v) && i + |d| <= |b| && b[i..i + |d|] == d
    ensures NumberAt(b, i, i + |d|, v)
  {
    forall k | i <= k < i + |d|
      ensures IsDigit(b[k])
    {
      assert b[k] == b[i..i + |d|][k - i] == d[k - i];
    }
  }

  /** Any size the selector can hold is read back from any decimal spelling of it. */
  lemma SizeLineParses(blanks: string, dw: string, w: nat, x: char, dh: string, h: nat, tail: string)
    requires (forall c | c in blanks :: Blank(c)) && Cross(x) && Ends(tail, 0)
    requires Spells(dw, w) && Spells(dh, h) && 0 < w <= LIMIT && 0 < h <= LIMIT
    ensures ParseLine(blanks + dw + [x] + dh + tail) == Size(w, h)
  {
    var b := blanks + dw + [x] + dh + tail;
    var i := |blanks|;
    var j := i + |dw|;
    var k := j + 1 + |dh|;
    assert b[i..j] == dw && b[j] == x && b[j + 1..k] == dh;
    PlacedNumber(b, i, dw, w);
    PlacedNumber(b, j + 1, dh, h);
    assert k < |b| ==> b[k] == tail[0];
    forall t | 0 <= t < i
      ensures b[t] in " \t"
    {
      assert b[t] == blanks[t] && blanks[t] in blanks;
    }
    SpeltSizeIsRead(b, i, j, k, w, h);
  }

  lemma BareSizeParses(dw: string, w: nat, dh: string, h: nat)
    requires Spells(dw, w) && Spells(dh, h) && 0 < w <= LIMIT && 0 < h <= LIMIT
    ensures ParseLine(dw + "x" + dh) == Size(w, h)
  {
    SizeLineParses([], dw, w, 'x', dh, h, []);
    assert [] + dw + ['x'] + dh + [] == dw + "x" + dh;
  }

  /** In particular the kernel's own printing of a size parses. */
  lemma PrintedSizeParses(w: nat, h: nat)
    requires 0 < w <= LIMIT && 0 < h <= LIMIT
    ensures ParseLine(Digits(w, 10) + "x" + Digits(h, 10)) == Size(w, h)
  {
    DigitsAreWorth(w, 10);
    DigitsAreWorth(h, 10);
    DecimalDigitsSpell(Digits(w, 10), w);
    DecimalDigitsSpell(Digits(h, 10), h);
    BareSizeParses(Digits(w, 10), w, Digits(h, 10), h);
  }
}
