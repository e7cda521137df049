/** The file format read by the loader: writing the fields of a header and reading them back. */
module ElfLayout {
  import opened Bytes
  import opened Elf

  /** The n low bytes of a number, lowest first. */
  function Encode(v: nat, n: nat): (b: seq<byte>)
    ensures |b| == n
  {
    if n == 0 then [] else [v % 0x100] + Encode(v / 0x100, n - 1)
  }

  function Limit(n: nat): nat {
    if n == 0 then 1 else 0x100 * Limit(n - 1)
  }

  lemma {:induction false} EncodedIsRead(v: nat, n: nat)
    requires v < Limit(n)
    ensures LittleEndian(Encode(v, n)) == v
  {
    if n > 0 {
      EncodedIsRead(v / 0x100, n - 1);
      assert Encode(v, n)[1..] == Encode(v / 0x100, n - 1);
    }
  }

  /** A word lies where its encoding was put, whatever comes before and after. */
  lemma WordAt(front: seq<byte>, v: nat, n: nat, back: seq<byte>, outside: Outside)
    requires v < Limit(n)
    ensures Word(front + Encode(v, n) + back, outside, |front|, n) == v
  {
    var b := Encode(v, n);
    var w := Span(front + b + back, outside, |front|, n);
    forall i | 0 <= i < n
      ensures w[i] == b[i]
    {
      assert w[i] == ByteAt(front + b + back, outside, |front| + i);
    }
    assert w == b;
    EncodedIsRead(v, n);
  }

  /** What a program header holds, the fields the loader ignores included. */
  datatype ProgramHeader = ProgramHeader(
    kind: nat, flags: seq<byte>, offset: nat, vaddr: nat, paddr: seq<byte>, filesz: nat, memsz: nat, align: seq<byte>)
  {
    predicate Valid() {
      && kind < Limit(4) && offset < Limit(8) && vaddr < Limit(8) && filesz < Limit(8) && memsz < Limit(8)
      && |flags| == 4 && |paddr| == 8 && |align| == 8
    }

    /** The layout of the ELF-64 Object File Format. */
    function Bytes(): (b: seq<byte>)
      requires Valid()
      ensures |b| == 56
    {
      Encode(kind, 4) + flags + Encode(offset, 8) + Encode(vaddr, 8) + paddr
      + Encode(filesz, 8) + Encode(memsz, 8) + align
    }
  }

  /** A word at a known place of a piece of the file. */
  lemma WordInside(front: seq<byte>, piece: seq<byte>, lo: nat, v: nat, n: nat, back: seq<byte>, outside: Outside)
    requires v < Limit(n) && lo + n <= |piece| && piece[lo..lo + n] == Encode(v, n)
    ensures Word(front + piece + back, outside, |front| + lo, n) == v
  {
    assert front + piece + back == (front + piece[..lo]) + Encode(v, n) + (piece[lo + n..] + back);
    WordAt(front + piece[..lo], v, n, piece[lo + n..] + back, outside);
  }

  /** Every program header in a table of them is read field by field. */
  lemma SegmentIsRead(front: seq<byte>, h: ProgramHeader, back: seq<byte>, outside: Outside, phoff: nat, i: nat)
    requires h.Valid() && |front| == phoff + i * 56
    ensures SegmentAt(front + h.Bytes() + back, outside, phoff, i)
            == Segment(h.kind, h.offset, h.vaddr, h.filesz, h.memsz)
  {
    var p := h.Bytes();
    ProgramHeaderSlices(h);
    WordInside(front, p, 0, h.kind, 4, back, outside);
    WordInside(front, p, 8, h.offset, 8, back, outside);
    WordInside(front, p, 16, h.vaddr, 8, back, outside);
    WordInside(front, p, 32, h.filesz, 8, back, outside);
    WordInside(front, p, 40, h.memsz, 8, back, outside);
  }

  lemma ProgramHeaderSlices(h: ProgramHeader)
    requires h.Valid()
    ensures var p := h.Bytes();
            && p[0..4] == Encode(h.kind, 4) && p[8..16] == Encode(h.offset, 8) && p[16..24] == Encode(h.vaddr, 8)
            && p[32..40] == Encode(h.filesz, 8) && p[40..48] == Encode(h.memsz, 8)
  {
  }

  /** The file header: identification, entry, table offset, and the size and number of table entries. */
  datatype FileHeader = FileHeader(
    magic: seq<byte>, ident: seq<byte>, entry: nat, phoff: nat, middle: seq<byte>, phentsize: nat, phnum: nat,
    last: seq<byte>)
  {
    predicate Valid() {
      && |magic| == 5 && |ident| == 19 && |middle| == 14 && |last| == 6
      && entry < Limit(8) && phoff < Limit(8) && phentsize < Limit(2) && phnum < Limit(2)
    }

    function Bytes(): (b: seq<byte>)
      requires Valid()
      ensures |b| == 64
    {
      magic + ident + Encode(entry, 8) + Encode(phoff, 8) + middle + Encode(phentsize, 2) + Encode(phnum, 2) + last
    }
  }

  lemma FileHeaderSlices(h: FileHeader)
    requires h.Valid()
    ensures var p := h.Bytes();
            && p[..5] == h.magic && p[24..32] == Encode(h.entry, 8) && p[32..40] == Encode(h.phoff, 8)
            && p[54..56] == Encode(h.phentsize, 2) && p[56..58] == Encode(h.phnum, 2)
  {
  }

  lemma WordOfFirst(p: seq<byte>, lo: nat, v: nat, n: nat, back: seq<byte>, outside: Outside)
    requires v < Limit(n) && lo + n <= |p| && p[lo..lo + n] == Encode(v, n)
    ensures Word(p + back, outside, lo, n) == v
  {
    WordInside([], p, lo, v, n, back, outside);
    assert [] + p + back == p + back;
  }

  /** The file header is read field by field: the four magic bytes, then class 2 for 64 bits. */
  lemma HeaderIsRead(h: FileHeader, back: seq<byte>, outside: Outside)
    requires h.Valid()
    ensures var r := HeaderOf(h.Bytes() + back, outside);
            && (r.magic <==> h.magic[..4] == [0x7F, 0x45, 0x4C, 0x46]) && (r.class64 <==> h.magic[4] == 2)
            && r.entry == h.entry && r.phoff == h.phoff && r.phentsize == h.phentsize && r.phnum == h.phnum
  {
    var p, f := h.Bytes(), h.Bytes() + back;
    FileHeaderSlices(h);
    WordOfFirst(p, 24, h.entry, 8, back, outside);
    WordOfFirst(p, 32, h.phoff, 8, back, outside);
    WordOfFirst(p, 54, h.phentsize, 2, back, outside);
    WordOfFirst(p, 56, h.phnum, 2, back, outside);
    assert f[..5] == h.magic;
    assert forall i | 0 <= i < 5 :: ByteAt(f, outside, i) == f[..5][i];
  }
}
