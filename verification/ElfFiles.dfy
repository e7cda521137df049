/** Two files, byte for byte, that the loader accepts although what it will read lies outside them. */
module ElfFiles {
  import opened Bytes
  import opened Elf

  function Zeros(n: nat): seq<byte> {
    seq<byte>(n, _ => 0)
  }

  /** An ELF header with entry point 1, one program header of 56 bytes, and the table at the given offset. */
  function HeaderBytes(phoff: seq<byte>): (f: File)
    requires |phoff| == 8
    ensures |f| == EHDR
  {
    [0x7F, 0x45, 0x4C, 0x46, 2, 1, 1, 0] + Zeros(8) + [2, 0, 0x3E, 0, 1, 0, 0, 0] + [1, 0, 0, 0, 0, 0, 0, 0]
    + phoff + Zeros(8) + [0, 0, 0, 0, 0x40, 0, 0x38, 0] + [1, 0, 0, 0, 0, 0, 0, 0]
  }

  lemma Le2(b: seq<byte>)
    requires |b| == 2
    ensures LittleEndian(b) == (b[0] as int) + 0x100 * (b[1] as int)
  {
    assert LittleEndian(b[1..][1..]) == 0;
    assert LittleEndian(b[1..]) == b[1];
  }

  lemma Le4(b: seq<byte>)
    requires |b| == 4
    ensures LittleEndian(b) == LittleEndian(b[..2]) + 0x1_0000 * LittleEndian(b[2..])
  {
    Le2(b[..2]);
    assert LittleEndian(b) == (b[0] as int) + 0x100 * LittleEndian(b[1..]);
    assert b[1..][1..] == b[2..];
    assert LittleEndian(b[1..]) == (b[1] as int) + 0x100 * LittleEndian(b[2..]);
  }

  lemma Le8(b: seq<byte>)
    requires |b| == 8
    ensures LittleEndian(b)
            == LittleEndian(b[..2]) + 0x1_0000 * LittleEndian(b[2..4])
               + 0x1_0000_0000 * (LittleEndian(b[4..6]) + 0x1_0000 * LittleEndian(b[6..]))
  {
    Le2(b[..2]);
    Le2(b[2..4]);
    assert LittleEndian(b) == (b[0] as int) + 0x100 * LittleEndian(b[1..]);
    assert b[1..][1..] == b[2..] && b[2..][1..] == b[3..] && b[3..][1..] == b[4..];
    assert LittleEndian(b[1..]) == (b[1] as int) + 0x100 * LittleEndian(b[2..]);
    assert LittleEndian(b[2..]) == (b[2] as int) + 0x100 * LittleEndian(b[3..]);
    assert LittleEndian(b[3..]) == (b[3] as int) + 0x100 * LittleEndian(b[4..]);
    Le4(b[4..]);
    assert b[4..][..2] == b[4..6] && b[4..][2..] == b[6..];
  }

  /** A word whose eight bytes are these. */
  lemma WordIs(f: File, outside: Outside, a: nat, b: seq<byte>)
    requires a + |b| <= |f| && f[a..a + |b|] == b
    ensures Word(f, outside, a, |b|) == LittleEndian(b)
  {
    var w := Span(f, outside, a, |b|);
    forall i | 0 <= i < |b|
      ensures w[i] == b[i]
    {
      assert w[i] == ByteAt(f, outside, a + i);
      assert f[a..a + |b|][i] == f[a + i];
    }
    assert w == b;
  }

  /** Eight bytes that are all the same after the first. */
  lemma FirstAndRest(lo: byte, hi: byte)
    ensures LittleEndian([lo, hi, hi, hi, hi, hi, hi, hi]) == (lo as int) + 0x100 * (hi as int) * 0x1_0101_0101_0101
  {
    var b: seq<byte> := [lo, hi, hi, hi, hi, hi, hi, hi];
    Le8(b);
    Le2(b[..2]);
    Le2(b[2..4]);
    Le2(b[4..6]);
    Le2(b[6..]);
  }

  lemma Slice(f: File, h: seq<byte>, lo: nat, b: seq<byte>)
    requires h <= f && lo + |b| <= |h| && h[lo..lo + |b|] == b
    ensures f[lo..lo + |b|] == b
  {
  }

  lemma HeaderSlices(phoff: seq<byte>)
    requires |phoff| == 8
    ensures var h := HeaderBytes(phoff);
            && h[0] == 0x7F && h[1] == 0x45 && h[2] == 0x4C && h[3] == 0x46 && h[4] == 2
            && h[24..24 + 8] == [1, 0, 0, 0, 0, 0, 0, 0] && h[32..32 + 8] == phoff
            && h[54..54 + 2] == [0x38, 0] && h[56..56 + 2] == [1, 0]
  {
  }

  lemma HeaderWords(f: File, outside: Outside, phoff: seq<byte>)
    requires |phoff| == 8 && HeaderBytes(phoff) <= f
    ensures Word(f, outside, 24, 8) == 1 && Word(f, outside, 32, 8) == LittleEndian(phoff)
    ensures Word(f, outside, 54, 2) == PHDR && Word(f, outside, 56, 2) == 1
  {
    var h := HeaderBytes(phoff);
    HeaderSlices(phoff);
    var one: seq<byte>, size: seq<byte>, count: seq<byte> := [1, 0, 0, 0, 0, 0, 0, 0], [0x38, 0], [1, 0];
    Slice(f, h, 24, one);
    Slice(f, h, 32, phoff);
    Slice(f, h, 54, size);
    Slice(f, h, 56, count);
    WordIs(f, outside, 24, one);
    WordIs(f, outside, 32, phoff);
    WordIs(f, outside, 54, size);
    WordIs(f, outside, 56, count);
    FirstAndRest(1, 0);
    Le2(size);
    Le2(count);
  }

  lemma HeaderOfBytes(f: File, outside: Outside, phoff: seq<byte>)
    requires |phoff| == 8 && HeaderBytes(phoff) <= f
    ensures HeaderOf(f, outside) == Header(true, true, 1, LittleEndian(phoff), PHDR, 1)
  {
    HeaderSlices(phoff);
    HeaderWords(f, outside, phoff);
  }

  // ---------------------------------------------------------------------------
  // A header table that wraps
  // ---------------------------------------------------------------------------

  /** 64 bytes: a header whose table starts 56 bytes before the end of the address space. */
  function TableFile(): File {
    HeaderBytes([0xC8, 0xFF, 0xFF, 0xFF, 0xFF, 0xFF, 0xFF, 0xFF])
  }

  lemma KindBelow(outside: Outside)
    requires outside(TWO64 - PHDR) != PT_LOAD
    ensures SegmentAt(TableFile(), outside, TWO64 - PHDR, 0).kind != PT_LOAD
  {
    var f, a := TableFile(), TWO64 - PHDR;
    var w := Span(f, outside, a, 4);
    assert w[0] == ByteAt(f, outside, a + 0);
    Le4(w);
    Le2(w[..2]);
  }

  /** The loader accepts it unless the word at that offset happens to start like a loadable segment. */
  lemma TableFileIsAccepted(outside: Outside)
    requires outside(TWO64 - PHDR) != PT_LOAD
    ensures var im := ImageOf(TableFile(), outside);
            |TableFile()| == 64 && Accepts(im) && !WellFormed(im)
  {
    var f := TableFile();
    FirstAndRest(0xC8, 0xFF);
    HeaderOfBytes(f, outside, [0xC8, 0xFF, 0xFF, 0xFF, 0xFF, 0xFF, 0xFF, 0xFF]);
    KindBelow(outside);
    var im := ImageOf(f, outside);
    assert im.header == Header(true, true, 1, TWO64 - PHDR, PHDR, 1);
    assert im.table(0) == SegmentAt(f, outside, TWO64 - PHDR, 0);
    WrappedTableIsAccepted(im.table);
  }

  // ---------------------------------------------------------------------------
  // A segment that wraps
  // ---------------------------------------------------------------------------

  /** A loadable segment of one byte at the last offset there is. */
  function SegmentBytes(): seq<byte> {
    [1, 0, 0, 0, 5, 0, 0, 0] + [0xFF, 0xFF, 0xFF, 0xFF, 0xFF, 0xFF, 0xFF, 0xFF] + Zeros(16)
    + [1, 0, 0, 0, 0, 0, 0, 0] + [1, 0, 0, 0, 0, 0, 0, 0] + Zeros(8)
  }

  /** 120 bytes: a header, and its one program header right after it. */
  function SegmentFile(): File {
    HeaderBytes([0x40, 0, 0, 0, 0, 0, 0, 0]) + SegmentBytes()
  }

  lemma SegmentSlices()
    ensures var s := SegmentBytes();
            && |s| == PHDR && s[0..0 + 4] == [1, 0, 0, 0]
            && s[8..8 + 8] == [0xFF, 0xFF, 0xFF, 0xFF, 0xFF, 0xFF, 0xFF, 0xFF]
            && s[16..16 + 8] == [0, 0, 0, 0, 0, 0, 0, 0]
            && s[32..32 + 8] == [1, 0, 0, 0, 0, 0, 0, 0] && s[40..40 + 8] == [1, 0, 0, 0, 0, 0, 0, 0]
  {
  }

  /** A word of what follows the file header. */
  lemma WordAfter(h: File, s: seq<byte>, outside: Outside, lo: nat, n: nat)
    requires lo + n <= |s|
    ensures Word(h + s, outside, |h| + lo, n) == LittleEndian(s[lo..lo + n])
  {
    assert (h + s)[|h| + lo..|h| + lo + n] == s[lo..lo + n];
    WordIs(h + s, outside, |h| + lo, s[lo..lo + n]);
  }

  lemma SegmentAfter(h: File, s: seq<byte>, outside: Outside)
    requires |s| == PHDR
    ensures SegmentAt(h + s, outside, |h|, 0)
            == Segment(LittleEndian(s[0..0 + 4]), LittleEndian(s[8..8 + 8]), LittleEndian(s[16..16 + 8]),
                       LittleEndian(s[32..32 + 8]), LittleEndian(s[40..40 + 8]))
  {
    WordAfter(h, s, outside, 0, 4);
    WordAfter(h, s, outside, 8, 8);
    WordAfter(h, s, outside, 16, 8);
    WordAfter(h, s, outside, 32, 8);
    WordAfter(h, s, outside, 40, 8);
  }

  lemma KindOne()
    ensures LittleEndian([1, 0, 0, 0]) == PT_LOAD
  {
    var k: seq<byte> := [1, 0, 0, 0];
    Le4(k);
    Le2(k[..2]);
    Le2(k[2..]);
  }

  lemma SegmentOfBytes(outside: Outside)
    ensures SegmentAt(SegmentFile(), outside, EHDR, 0) == Segment(PT_LOAD, TWO64 - 1, 0, 1, 1)
  {
    SegmentSlices();
    SegmentAfter(HeaderBytes([0x40, 0, 0, 0, 0, 0, 0, 0]), SegmentBytes(), outside);
    FirstAndRest(0xFF, 0xFF);
    FirstAndRest(0, 0);
    FirstAndRest(1, 0);
    KindOne();
  }

  lemma SegmentFileIsAccepted(outside: Outside)
    ensures var im := ImageOf(SegmentFile(), outside);
            |SegmentFile()| == 120 && Accepts(im) && !WellFormed(im)
  {
    var f := SegmentFile();
    FirstAndRest(0x40, 0);
    HeaderOfBytes(f, outside, [0x40, 0, 0, 0, 0, 0, 0, 0]);
    SegmentOfBytes(outside);
    var im := ImageOf(f, outside);
    assert im.header == Header(true, true, 1, EHDR, PHDR, 1);
    assert im.table(0) == SegmentAt(f, outside, EHDR, 0);
    WrappedSegmentIsAccepted(im.table);
  }
}
