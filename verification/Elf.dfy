/**
 The loader's view of the kernel file: validation of the ELF header and program
 headers, choice between the kernel and its backup, and placement of the segments.
 Arithmetic is on 64-bit words, so sums wrap; `outside(a)` is whatever lies in memory
 at offset a past the end of the file buffer.
 */
module Elf {
  import opened Bytes

  const TWO64: int := 0x1_0000_0000_0000_0000
  const EHDR := 64
  const PHDR := 56
  const PT_LOAD := 1

  type File = seq<byte>
  type Outside = nat -> byte

  function ByteAt(f: File, outside: Outside, a: nat): byte {
    if a < |f| then f[a] else outside(a)
  }

  function Span(f: File, outside: Outside, a: nat, n: nat): seq<byte> {
    seq<byte>(n, i requires 0 <= i < n => ByteAt(f, outside, a + i))
  }

  function LittleEndian(bytes: seq<byte>): nat {
    if bytes == [] then 0
    else
      var lo: int := bytes[0];
      lo + 0x100 * LittleEndian(bytes[1..])
  }

  /** Little-endian word of n bytes at offset a. */
  function Word(f: File, outside: Outside, a: nat, n: nat): nat {
    LittleEndian(Span(f, outside, a, n))
  }

  datatype Header = Header(magic: bool, class64: bool, entry: nat, phoff: nat, phentsize: nat, phnum: nat)

  function HeaderOf(f: File, outside: Outside): Header {
    Header(ByteAt(f, outside, 0) == 0x7F && ByteAt(f, outside, 1) == 0x45 && ByteAt(f, outside, 2) == 0x4C
           && ByteAt(f, outside, 3) == 0x46,
           ByteAt(f, outside, 4) == 2,
           Word(f, outside, 24, 8), Word(f, outside, 32, 8), Word(f, outside, 54, 2), Word(f, outside, 56, 2))
  }

  datatype Segment = Segment(kind: nat, offset: nat, vaddr: nat, filesz: nat, memsz: nat)

  /** The i-th program header. The loader steps by the size of its own structure, not by e_phentsize. */
  function SegmentAt(f: File, outside: Outside, phoff: nat, i: nat): Segment {
    var a := phoff + i * PHDR;
    Segment(Word(f, outside, a, 4), Word(f, outside, a + 8, 8), Word(f, outside, a + 16, 8),
            Word(f, outside, a + 32, 8), Word(f, outside, a + 40, 8))
  }

  /** All the loader reads of a file before it copies anything. */
  datatype Image = Image(size: nat, header: Header, table: nat -> Segment)

  function TableOf(f: File, outside: Outside, phoff: nat): nat -> Segment {
    (i: nat) => SegmentAt(f, outside, phoff, i)
  }

  function ImageOf(f: File, outside: Outside): Image {
    var h := HeaderOf(f, outside);
    Image(|f|, h, TableOf(f, outside, h.phoff))
  }

  // ---------------------------------------------------------------------------
  // Validation
  // ---------------------------------------------------------------------------

  predicate SegmentPasses(s: Segment, size: nat) {
    s.kind == PT_LOAD ==> (s.offset + s.filesz) % TWO64 <= size && s.filesz <= s.memsz
  }

  predicate SegmentsPass(table: nat -> Segment, n: nat, size: nat) {
    forall i: nat | i < n :: SegmentPasses(table(i), size)
  }

  function TableEnd(h: Header): nat {
    h.phoff + h.phnum * h.phentsize
  }

  predicate HeaderFields(h: Header) {
    h.magic && h.class64 && h.phnum != 0 && h.phentsize >= PHDR && h.entry != 0
  }

  /** What the loader accepts. */
  predicate Accepts(im: Image) {
    && im.size >= EHDR && HeaderFields(im.header)
    && TableEnd(im.header) % TWO64 <= im.size
    && SegmentsPass(im.table, im.header.phnum, im.size)
  }

  method KernelImageValid(f: File, outside: Outside) returns (ok: bool)
    ensures ok == Accepts(ImageOf(f, outside))
  {
    if |f| < EHDR {
      return false;
    }
    var im := ImageOf(f, outside);
    ok := ImageValid(im);
  }

  /** The checks once the header is known to be inside the file. */
  method ImageValid(im: Image) returns (ok: bool)
    requires im.size >= EHDR
    ensures ok == Accepts(im)
  {
    var h := im.header;
    if !h.magic || !h.class64 || h.phnum == 0 || h.phentsize < PHDR {
      return false;
    }
    var tableEnd := (h.phoff + h.phnum * h.phentsize) % TWO64;
    if tableEnd > im.size {
      return false;
    }
    for i := 0 to h.phnum
      invariant SegmentsPass(im.table, i, im.size)
    {
      var s := im.table(i);
      if s.kind == PT_LOAD {
        if (s.offset + s.filesz) % TWO64 > im.size || s.filesz > s.memsz {
          assert !SegmentPasses(im.table(i), im.size);
          return false;
        }
      }
    }
    ok := h.entry != 0;
  }

  // ---------------------------------------------------------------------------
  // What acceptance means
  // ---------------------------------------------------------------------------

  predicate SegmentSumFits(s: Segment) {
    s.kind == PT_LOAD ==> s.offset + s.filesz < TWO64
  }

  /** The sums the check computes do not wrap. */
  predicate SumsFit(im: Image) {
    TableEnd(im.header) < TWO64 && forall i: nat | i < im.header.phnum :: SegmentSumFits(im.table(i))
  }

  predicate SegmentInside(s: Segment, size: nat) {
    s.kind == 1 ==> s.offset + s.filesz <= size && s.filesz <= s.memsz
  }

  /** The header table and every loadable segment's bytes end by n. */
  predicate Reaches(im: Image, n: nat) {
    && n >= 64 && im.header.phoff + im.header.phnum * im.header.phentsize <= n
    && forall i: nat | i < im.header.phnum :: SegmentInside(im.table(i), n)
  }

  /** A 64-bit ELF file with an entry point, whose whole table and loadable segments' bytes lie inside it. */
  predicate WellFormed(im: Image) {
    && im.header.magic && im.header.class64 && im.header.entry > 0
    && im.header.phnum > 0 && im.header.phentsize >= 56
    && Reaches(im, im.size)
  }

  lemma SmallMod(x: nat)
    requires x < TWO64
    ensures x % TWO64 == x
  {
  }

  lemma SegmentCheck(s: Segment, size: nat)
    requires SegmentSumFits(s)
    ensures SegmentPasses(s, size) <==> SegmentInside(s, size)
  {
    if s.kind == PT_LOAD {
      SmallMod(s.offset + s.filesz);
    }
  }

  /** The 64-bit check of a segment goes wrong exactly when its end wraps to an offset inside the file. */
  lemma SegmentCheckFailsExactlyWhenWrapped(s: Segment, size: nat)
    requires s.offset < TWO64 && s.filesz < TWO64 && size < TWO64
    ensures (SegmentPasses(s, size) <==> SegmentInside(s, size)) <==>
            !(s.kind == PT_LOAD && s.filesz <= s.memsz && TWO64 <= s.offset + s.filesz <= TWO64 + size)
  {
    if s.offset + s.filesz < TWO64 {
      SmallMod(s.offset + s.filesz);
    } else {
      SmallMod(s.offset + s.filesz - TWO64);
    }
  }

  /** Where the sums do not wrap, acceptance is exactly well-formedness. */
  lemma AcceptanceIsWellFormedness(im: Image)
    requires SumsFit(im)
    ensures Accepts(im) <==> WellFormed(im)
  {
    SmallMod(TableEnd(im.header));
    forall i: nat | i < im.header.phnum
      ensures SegmentPasses(im.table(i), im.size) <==> SegmentInside(im.table(i), im.size)
    {
      SegmentCheck(im.table(i), im.size);
    }
  }

  /**
   Main theorem: an image is well formed if and only if it is accepted and neither the
   end of its header table nor the end of a loadable segment's bytes wraps. So the check
   lets a malformed image through exactly when one of those sums wraps to inside the file.
   */
  lemma WellFormedIffAcceptedWithoutWrap(im: Image)
    requires im.size < TWO64
    ensures WellFormed(im) <==> Accepts(im) && SumsFit(im)
  {
    if WellFormed(im) {
      forall i: nat | i < im.header.phnum
        ensures SegmentSumFits(im.table(i))
      {
        assert SegmentInside(im.table(i), im.size);
      }
    }
    if SumsFit(im) {
      AcceptanceIsWellFormedness(im);
    }
  }

  /** A table whose end wraps to zero is accepted in a file that holds nothing but a header. */
  lemma WrappedTableIsAccepted(table: nat -> Segment)
    requires table(0).kind != PT_LOAD
    ensures var im := Image(EHDR, Header(true, true, 1, TWO64 - PHDR, PHDR, 1), table);
            Accepts(im) && !WellFormed(im)
  {
  }

  /** So is a segment that starts at the last byte of the address space and ends one past it. */
  lemma WrappedSegmentIsAccepted(table: nat -> Segment)
    requires table(0) == Segment(PT_LOAD, TWO64 - 1, 0, 1, 1)
    ensures var im := Image(EHDR + PHDR, Header(true, true, 1, EHDR, PHDR, 1), table);
            Accepts(im) && !WellFormed(im)
  {
    assert !SegmentInside(table(0), EHDR + PHDR);
  }

  // ---------------------------------------------------------------------------
  // Truncation
  // ---------------------------------------------------------------------------

  lemma WordOfPrefix(f: File, outside: Outside, n: nat, a: nat, k: nat)
    requires n <= |f| && a + k <= n
    ensures Word(f[..n], outside, a, k) == Word(f, outside, a, k)
  {
    var cut, whole := Span(f[..n], outside, a, k), Span(f, outside, a, k);
    forall i | 0 <= i < k
      ensures cut[i] == whole[i]
    {
      assert ByteAt(f[..n], outside, a + i) == ByteAt(f, outside, a + i);
    }
    assert cut == whole;
  }

  lemma HeaderOfPrefix(f: File, outside: Outside, n: nat)
    requires EHDR <= n <= |f|
    ensures HeaderOf(f[..n], outside) == HeaderOf(f, outside)
  {
    WordOfPrefix(f, outside, n, 24, 8);
    WordOfPrefix(f, outside, n, 32, 8);
    WordOfPrefix(f, outside, n, 54, 2);
    WordOfPrefix(f, outside, n, 56, 2);
  }

  lemma SegmentOfPrefix(f: File, outside: Outside, n: nat, phoff: nat, i: nat)
    requires n <= |f| && phoff + i * PHDR + PHDR <= n
    ensures SegmentAt(f[..n], outside, phoff, i) == SegmentAt(f, outside, phoff, i)
  {
    var a := phoff + i * PHDR;
    WordOfPrefix(f, outside, n, a, 4);
    WordOfPrefix(f, outside, n, a + 8, 8);
    WordOfPrefix(f, outside, n, a + 16, 8);
    WordOfPrefix(f, outside, n, a + 32, 8);
    WordOfPrefix(f, outside, n, a + 40, 8);
  }

  lemma TableEntryInside(h: Header, i: nat)
    requires i < h.phnum && h.phentsize >= PHDR
    ensures h.phoff + i * PHDR + PHDR <= TableEnd(h)
  {
    assert (i + 1) * PHDR <= h.phnum * PHDR;
    assert h.phnum * PHDR <= h.phnum * h.phentsize;
  }

  /** Cutting a file after its header table leaves header and table as they were. */
  lemma ImageOfPrefix(f: File, outside: Outside, n: nat)
    requires EHDR <= n <= |f| && HeaderFields(HeaderOf(f, outside)) && TableEnd(HeaderOf(f, outside)) <= n
    ensures var im := ImageOf(f, outside);
            forall i: nat | i < im.header.phnum :: ImageOf(f[..n], outside).table(i) == im.table(i)
  {
    var h := HeaderOf(f, outside);
    HeaderOfPrefix(f, outside, n);
    forall i: nat | i < h.phnum
      ensures ImageOf(f[..n], outside).table(i) == ImageOf(f, outside).table(i)
    {
      TableEntryInside(h, i);
      SegmentOfPrefix(f, outside, n, h.phoff, i);
    }
  }

  /** The same header over a shorter file, when the table entries have not changed. */
  lemma ShorterImage(im: Image, cut: Image)
    requires SumsFit(im) && WellFormed(im) && EHDR <= cut.size && cut.header == im.header
    requires TableEnd(im.header) <= cut.size ==> forall i: nat | i < im.header.phnum :: cut.table(i) == im.table(i)
    ensures Accepts(cut) <==> Reaches(im, cut.size)
  {
    SmallMod(TableEnd(im.header));
    if TableEnd(im.header) <= cut.size {
      forall i: nat | i < im.header.phnum
        ensures SegmentPasses(cut.table(i), cut.size) <==> SegmentInside(im.table(i), cut.size)
      {
        SegmentCheck(im.table(i), cut.size);
      }
    }
  }

  /**
   Main theorem: a truncation of a good image is accepted exactly when it still holds
   the header table and every loadable segment's bytes; any shorter one is rejected.
   */
  lemma TruncationIsDetected(f: File, outside: Outside, n: nat)
    requires |f| < TWO64 && WellFormed(ImageOf(f, outside)) && n <= |f|
    ensures Accepts(ImageOf(f[..n], outside)) <==> Reaches(ImageOf(f, outside), n)
  {
    WellFormedIffAcceptedWithoutWrap(ImageOf(f, outside));
    if n >= EHDR {
      HeaderOfPrefix(f, outside, n);
      if TableEnd(HeaderOf(f, outside)) <= n {
        ImageOfPrefix(f, outside, n);
      }
      ShorterImage(ImageOf(f, outside), ImageOf(f[..n], outside));
    }
  }

  // ---------------------------------------------------------------------------
  // The backup kernel
  // ---------------------------------------------------------------------------

  datatype Choice = Boot(image: File, backup: bool) | NotFound | LoadError

  /** None is a file that could not be read. */
  method ChooseKernel(primary: Option<File>, backup: Option<File>, outside: Outside) returns (c: Choice)
    ensures c.Boot? ==> Accepts(ImageOf(c.image, outside))
    ensures c.Boot? <==> || (primary.Some? && Accepts(ImageOf(primary.value, outside)))
                         || (backup.Some? && Accepts(ImageOf(backup.value, outside)))
    ensures c.Boot? && !c.backup ==> primary == Some(c.image)
    ensures c.Boot? && c.backup ==>
              backup == Some(c.image) && !(primary.Some? && Accepts(ImageOf(primary.value, outside)))
    ensures c == NotFound ==> backup.None?
    ensures c == LoadError ==> backup.Some?
  {
    if primary.Some? {
      var ok := KernelImageValid(primary.value, outside);
      if ok {
        return Boot(primary.value, false);
      }
    }
    if backup.None? {
      return NotFound;
    }
    var ok := KernelImageValid(backup.value, outside);
    if !ok {
      return LoadError;
    }
    return Boot(backup.value, true);
  }
}
