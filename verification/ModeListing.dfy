/** The kernel's report on the loader's mode list: the listing, and whether the request was offered. */
module ModeListing {
  import opened Bytes
  import opened Numbers
  import opened ModeLine
  import opened ModeSelect

  const TOKEN_SIZE := 64
  const BODY_SIZE := 160
  const PER_LINE := 6
  const WRAP := 110
  const TWO32: int := 0x1_0000_0000

  // ---------------------------------------------------------------------------
  // Was the request offered?
  // ---------------------------------------------------------------------------

  /** The checks before the list is trusted. */
  predicate Trusted(tag: nat, modeCount: nat, b: Blob) {
    modeCount != 0 && tag == LIST_MAGIC && b.magic == LIST_MAGIC && b.count <= LIST_MAX && b.count == modeCount
  }

  predicate Fits(e: Entry, w: nat, h: nat) {
    !QueryFailed(e) && e.width == w && e.height == h
  }

  /** `PRESENT at index i`, or `NOT OFFERED`: the first entry of the requested size. */
  method FindRequested(b: Blob) returns (found: Option<nat>)
    requires b.count == |b.entries|
    ensures found.Some? <==> Present(b)
    ensures found.Some? ==> found.value < |b.entries| && Fits(b.entries[found.value], b.reqW, b.reqH)
                            && forall j | 0 <= j < found.value :: !Fits(b.entries[j], b.reqW, b.reqH)
  {
    for i := 0 to b.count
      invariant forall j | 0 <= j < i :: !Fits(b.entries[j], b.reqW, b.reqH)
    {
      if QueryFailed(b.entries[i]) {
        continue;
      }
      if b.entries[i].width == b.reqW && b.entries[i].height == b.reqH {
        return Some(i);
      }
    }
    found := None;
  }

  predicate Present(b: Blob) {
    exists i | 0 <= i < |b.entries| :: Fits(b.entries[i], b.reqW, b.reqH)
  }

  lemma EntryKeepsAnswer(q: Option<Info>, current: bool, w: nat, h: nat)
    ensures QueryFailed(EntryOf(q, current)) <==> q.None?
    ensures IsCurrent(EntryOf(q, current)) <==> current
    ensures Fits(EntryOf(q, current), w, h) <==> q.Some? && q.value.width == w && q.value.height == h
  {
  }

  predicate HasSize(q: Option<Info>, w: nat, h: nat) {
    q.Some? && q.value.width == w && q.value.height == h
  }

  /** PRESENT is exactly what the listing sweep was answered, whatever later queries say. */
  lemma PresentExactlyWhenSwept(fw: Firmware, c: nat, d: Display, file: ModeFile)
    requires RequestOf(file).Size?
    ensures var r := RequestOf(file);
            Present(BlobOf(fw, c, d, file)) <==>
            exists m: nat | m < fw.maxMode :: HasSize(Swept(fw, c, m), r.width, r.height)
  {
    var r, b := RequestOf(file), BlobOf(fw, c, d, file);
    forall m: nat | m < fw.maxMode
      ensures Fits(b.entries[m], b.reqW, b.reqH) <==> HasSize(Swept(fw, c, m), r.width, r.height)
    {
      EntryKeepsAnswer(Swept(fw, c, m), m == d.mode, r.width, r.height);
    }
    if i :| 0 <= i < |b.entries| && Fits(b.entries[i], b.reqW, b.reqH) {
      assert HasSize(Swept(fw, c, i), r.width, r.height);
    }
    if m: nat :| m < fw.maxMode && HasSize(Swept(fw, c, m), r.width, r.height) {
      assert Fits(b.entries[m], b.reqW, b.reqH);
    }
  }

  /** With stable answers, what the loader's search finds is in the list. */
  lemma FoundIsListed(fw: Firmware, c: nat, d: Display, file: ModeFile)
    requires fw.Valid() && Stable(fw) && RequestOf(file).Size?
    requires FirstLinear(fw, c + fw.maxMode, RequestOf(file).width, RequestOf(file).height, 0) != NO_TARGET
    ensures Present(BlobOf(fw, c, d, file))
  {
    var r, b, c' := RequestOf(file), BlobOf(fw, c, d, file), c + fw.maxMode;
    var t := FirstLinear(fw, c', r.width, r.height, 0);
    FirstLinearIs(fw, c', r.width, r.height, 0);
    assert Swept(fw, c, t) == Swept(fw, c', t);
    EntryKeepsAnswer(Swept(fw, c, t), t == d.mode, r.width, r.height);
    assert b.entries[t] == EntryOf(Swept(fw, c, t), t == d.mode);
    assert Fits(b.entries[t], b.reqW, b.reqH);
  }

  /** `NOT OFFERED` is honest: with stable answers it means the loader refused the request. */
  lemma NotOfferedMeansRefused(fw: Firmware, c: nat, d: Display, file: ModeFile)
    requires fw.Valid() && Stable(fw) && RequestOf(file).Size? && !Present(BlobOf(fw, c, d, file))
    ensures BlobOf(fw, c, d, file).status == REFUSED
  {
    if FirstLinear(fw, c + fw.maxMode, RequestOf(file).width, RequestOf(file).height, 0) != NO_TARGET {
      FoundIsListed(fw, c, d, file);
    }
  }

  /**
   Main theorem: with stable answers, a size request that was applied is reported PRESENT,
   in a list that passes the kernel's checks whenever the loader had room to leave one.
   */
  lemma AppliedIsPresent(fw: Firmware, c: nat, d: Display, file: ModeFile)
    requires fw.Valid() && Stable(fw) && RequestOf(file).Size? && BlobOf(fw, c, d, file).status == APPLIED
    ensures var b := BlobOf(fw, c, d, file);
            Present(b) && b.count == |b.entries| && (fw.maxMode <= LIST_MAX ==> Trusted(LIST_MAGIC, fw.maxMode, b))
  {
    if !Present(BlobOf(fw, c, d, file)) {
      NotOfferedMeansRefused(fw, c, d, file);
    }
    PresentExactlyWhenSwept(fw, c, d, file);
  }

  /** PRESENT beside a refusal happens exactly when the size exists only without a linear framebuffer. */
  lemma PresentYetRefusedExactlyWhen(fw: Firmware, c: nat, d: Display, file: ModeFile)
    requires fw.Valid() && Stable(fw) && RequestOf(file).Size?
    ensures var r, b := RequestOf(file), BlobOf(fw, c, d, file);
            Present(b) && b.status == REFUSED <==>
            && (exists m: nat | m < fw.maxMode :: Fits(EntryOf(Swept(fw, 0, m), false), r.width, r.height))
            && !Offers(fw, r.width, r.height)
  {
    var r, b := RequestOf(file), BlobOf(fw, c, d, file);
    PositiveRequest(file);
    RefusedExactlyWhenNotOffered(fw, c + fw.maxMode, d, r.width, r.height);
    forall m: nat | m < fw.maxMode
      ensures Fits(b.entries[m], b.reqW, b.reqH) <==> Fits(EntryOf(Swept(fw, 0, m), false), r.width, r.height)
    {
      assert Swept(fw, c, m) == Swept(fw, 0, m);
      EntryKeepsAnswer(Swept(fw, c, m), m == d.mode, r.width, r.height);
      EntryKeepsAnswer(Swept(fw, 0, m), false, r.width, r.height);
    }
  }

  lemma PositiveRequest(file: ModeFile)
    requires RequestOf(file).Size?
    ensures RequestOf(file).width > 0 && RequestOf(file).height > 0
  {
  }

  /** Without stable answers it can fail: a mode first withheld, then offered, is applied and reported NOT OFFERED. */
  lemma UnstableFirmwareMisleads(d: Display, file: ModeFile)
    requires RequestOf(file).Size? && d.mode == 0
    ensures exists fw: Firmware ::
              fw.Valid() && BlobOf(fw, 0, d, file).status == APPLIED && !Present(BlobOf(fw, 0, d, file))
  {
    var r := RequestOf(file);
    PositiveRequest(file);
    var fw := Firmware(1, (c: nat, m: nat) => if c == 0 then None else Some(Info(r.width, r.height, 0)),
                       (m: nat, e: Display) => (true, e));
    assert FirstLinear(fw, 1, r.width, r.height, 0) == 0;
    assert Listing(fw, 0, 0) == [EntryOf(None, true)];
    assert BlobOf(fw, 0, d, file).status == APPLIED;
  }

  // ---------------------------------------------------------------------------
  // The listing
  // ---------------------------------------------------------------------------

  function Decimal(v: nat): string {
    Digits(v, 10)
  }

  function Token(i: nat, e: Entry): string {
    if QueryFailed(e) then Decimal(i) + ":query-failed "
    else
      Decimal(i) + (if IsCurrent(e) then "*" else "") + ":" + Decimal(e.width) + "x" + Decimal(e.height)
      + (if e.format > 1 then "/fmt" + Decimal(e.format) else "") + " "
  }

  /** Printed pieces lo up to hi, in order. */
  function Joined(piece: nat -> string, lo: nat, hi: nat): string
    requires lo <= hi
  {
    if lo == hi then "" else Joined(piece, lo, hi - 1) + piece(hi - 1)
  }

  /** The token printed for each index. */
  function TokenOf(entries: seq<Entry>): nat -> string {
    (i: nat) => if i < |entries| then Token(i, entries[i]) else ""
  }

  predicate Words(e: Entry) {
    e.width < TWO32 && e.height < TWO32 && e.format < TWO32
  }

  /** A 32-bit number has at most ten digits in every base from ten on. */
  lemma ShortDigits(v: nat, base: nat)
    requires v < TWO32 && 10 <= base <= 16
    ensures |Digits(v, base)| <= 10
  {
    assert Power(10, 10) == 10_000_000_000;
    DigitsLength(v, base, 10, 10);
  }

  lemma TokenLength(i: nat, e: Entry)
    requires i < TWO32 && Words(e)
    ensures |Token(i, e)| <= 48
  {
    ShortDigits(i, 10);
    ShortDigits(e.width, 10);
    ShortDigits(e.height, 10);
    ShortDigits(e.format, 10);
  }

  /** What a print into a buffer of the given size keeps. */
  function Cut(s: string, size: nat): string
    requires size > 0
  {
    s[..Min(|s|, size - 1)]
  }

  datatype Line = Line(first: nat, last: nat, body: string)

  /** One printed line: whole pieces in order, ended by one of the two bounds or the end. */
  predicate LineOk(l: Line, piece: nat -> string, count: nat) {
    && l.first <= l.last < count && l.last < l.first + 6
    && l.body == Joined(piece, l.first, l.last + 1) && |l.body| < 160
    && |Joined(piece, l.first, l.last)| < 110
    && (l.last + 1 == count || l.last + 1 == l.first + 6 || |l.body| >= 110)
  }

  ghost predicate Short(piece: nat -> string) {
    forall i :: |piece(i)| <= 48
  }

  method FillLine(piece: nat -> string, count: nat, first: nat) returns (l: Line)
    requires first < count && Short(piece)
    ensures LineOk(l, piece, count) && l.first == first
  {
    var i, k, body := first, 0, "";
    while i < count && k < PER_LINE && |body| < WRAP
      invariant i == first + k && k <= PER_LINE && i <= count
      invariant body == Joined(piece, first, i) && |body| < BODY_SIZE
      invariant k > 0 ==> |Joined(piece, first, i - 1)| < WRAP
      decreases count - i
    {
      var tok := Cut(piece(i), TOKEN_SIZE);
      body := body + Cut(tok, BODY_SIZE - |body|);
      i := i + 1;
      k := k + 1;
    }
    l := Line(first, i - 1, body);
  }

  /** Lines that follow one another from piece 0 up to piece n. */
  predicate Tiles(lines: seq<Line>, piece: nat -> string, count: nat, n: nat) {
    if lines == [] then n == 0
    else
      var l := lines[|lines| - 1];
      LineOk(l, piece, count) && l.last + 1 == n && Tiles(lines[..|lines| - 1], piece, count, l.first)
  }

  method PrintList(entries: seq<Entry>) returns (lines: seq<Line>)
    requires |entries| < TWO32 && forall i | 0 <= i < |entries| :: Words(entries[i])
    ensures Tiles(lines, TokenOf(entries), |entries|, |entries|)
    ensures Bodies(lines) == Joined(TokenOf(entries), 0, |entries|)
  {
    var piece := TokenOf(entries);
    TokensAreShort(entries);
    var i: nat := 0;
    lines := [];
    while i < |entries|
      invariant i <= |entries| && Tiles(lines, piece, |entries|, i)
      decreases |entries| - i
    {
      var l := FillLine(piece, |entries|, i);
      assert (lines + [l])[..|lines|] == lines;
      lines := lines + [l];
      i := l.last + 1;
    }
    ListingIsComplete(lines, piece, |entries|, |entries|);
  }

  lemma TokensAreShort(entries: seq<Entry>)
    requires |entries| < TWO32 && forall i | 0 <= i < |entries| :: Words(entries[i])
    ensures Short(TokenOf(entries))
  {
    forall i: nat
      ensures |TokenOf(entries)(i)| <= 48
    {
      if i < |entries| {
        TokenLength(i, entries[i]);
      }
    }
  }

  function Bodies(lines: seq<Line>): string {
    if lines == [] then "" else Bodies(lines[..|lines| - 1]) + lines[|lines| - 1].body
  }

  lemma {:induction false} PiecesJoin(piece: nat -> string, lo: nat, mid: nat, hi: nat)
    requires lo <= mid <= hi
    ensures Joined(piece, lo, hi) == Joined(piece, lo, mid) + Joined(piece, mid, hi)
    decreases hi - mid
  {
    if mid < hi {
      PiecesJoin(piece, lo, mid, hi - 1);
    }
  }

  /** Every index is printed once, in order, with no token cut, whatever the line breaks. */
  lemma {:induction false} ListingIsComplete(lines: seq<Line>, piece: nat -> string, count: nat, n: nat)
    requires n <= count && Tiles(lines, piece, count, n)
    ensures Bodies(lines) == Joined(piece, 0, n)
    decreases |lines|
  {
    if lines != [] {
      var l := lines[|lines| - 1];
      ListingIsComplete(lines[..|lines| - 1], piece, count, l.first);
      PiecesJoin(piece, 0, l.first, n);
    }
  }
}
