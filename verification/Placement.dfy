/**
 Loading the kernel's segments at their linked addresses, and the check that a busy
 address range may be overwritten.
 */
module Placement {
  import opened Bytes
  import opened Elf

  const PAGE := 4096

  // ---------------------------------------------------------------------------
  // Claimable memory
  // ---------------------------------------------------------------------------

  datatype MemoryType = Usable | Reserved | AcpiReclaimable | AcpiNvs | Bad | Bootloader

  /** Firmware memory types by number (table 7-6 of section 7.2 of the UEFI Specification). */
  function Convert(uefi: nat): MemoryType {
    if uefi == 7 || uefi == 3 || uefi == 4 then Usable
    else if uefi == 1 || uefi == 2 then Bootloader
    else if uefi == 9 then AcpiReclaimable
    else if uefi == 10 then AcpiNvs
    else if uefi == 8 then Bad
    else Reserved
  }

  datatype Descriptor = Descriptor(kind: nat, start: nat, pages: nat)

  predicate Covers(d: Descriptor, page: nat) {
    d.start <= page < (d.start + d.pages * PAGE) % TWO64
  }

  /** The type the first covering descriptor gives a page; None when no descriptor does. */
  function TypeOf(entries: seq<Descriptor>, page: nat): Option<MemoryType> {
    if entries == [] then None
    else if Covers(entries[0], page) then Some(Convert(entries[0].kind))
    else TypeOf(entries[1..], page)
  }

  predicate Claimable(entries: seq<Descriptor>, page: nat) {
    TypeOf(entries, page) == Some(Usable) || TypeOf(entries, page) == Some(Bootloader)
  }

  /** Descriptor i is the first one whose pages include this one; its end is a 64-bit sum. */
  ghost predicate FirstCovering(entries: seq<Descriptor>, page: nat, i: nat) {
    && i < |entries| && entries[i].start <= page < (entries[i].start + entries[i].pages * 4096) % TWO64
    && forall j: nat | j < i :: !Covers(entries[j], page)
  }

  lemma {:induction false} TypeIsFirstCovering(entries: seq<Descriptor>, page: nat, i: nat)
    requires FirstCovering(entries, page, i)
    ensures TypeOf(entries, page) == Some(Convert(entries[i].kind))
    decreases i
  {
    if i > 0 {
      assert !Covers(entries[0], page);
      forall j: nat | j < i - 1
        ensures !Covers(entries[1..][j], page)
      {
        assert entries[1..][j] == entries[j + 1];
      }
      TypeIsFirstCovering(entries[1..], page, i - 1);
    }
  }

  lemma {:induction false} SomeFirstCovering(entries: seq<Descriptor>, page: nat) returns (i: nat)
    requires TypeOf(entries, page).Some?
    ensures FirstCovering(entries, page, i)
    decreases |entries|
  {
    if Covers(entries[0], page) {
      i := 0;
    } else {
      var k := SomeFirstCovering(entries[1..], page);
      i := k + 1;
      forall j: nat | j < i
        ensures !Covers(entries[j], page)
      {
        assert j > 0 ==> entries[j] == entries[1..][j - 1];
      }
    }
  }

  /** A page may be overwritten exactly when the first descriptor covering it is loader, boot or free memory. */
  lemma ClaimableByKind(entries: seq<Descriptor>, page: nat)
    ensures Claimable(entries, page) <==>
            exists i: nat :: FirstCovering(entries, page, i) && entries[i].kind in {1, 2, 3, 4, 7}
  {
    if Claimable(entries, page) {
      var i := SomeFirstCovering(entries, page);
      TypeIsFirstCovering(entries, page, i);
    }
    if i: nat :| FirstCovering(entries, page, i) && entries[i].kind in {1, 2, 3, 4, 7} {
      TypeIsFirstCovering(entries, page, i);
    }
  }

  function RangeStart(base: nat): nat {
    base - base % PAGE
  }

  /** One past the last page, computed in 64 bits. */
  function RangeEnd(base: nat, size: nat): nat {
    var e := (base + size + (PAGE - 1)) % TWO64;
    e - e % PAGE
  }

  function PageAt(base: nat, k: nat): nat {
    RangeStart(base) + k * PAGE
  }

  /** Every page from the first to the last is claimable. */
  ghost predicate RangeClaimable(entries: seq<Descriptor>, base: nat, size: nat) {
    forall k: nat | PageAt(base, k) < RangeEnd(base, size) :: Claimable(entries, PageAt(base, k))
  }

  /** `worst` is the type at the first page that is not claimable, or at the base page when all are. */
  method SegRangeIsClaimable(entries: seq<Descriptor>, base: nat, size: nat) returns (ok: bool, worst: MemoryType)
    ensures ok <==> RangeClaimable(entries, base, size)
    ensures ok && RangeStart(base) < RangeEnd(base, size) ==> TypeOf(entries, RangeStart(base)) == Some(worst)
    ensures !ok ==> exists k: nat | PageAt(base, k) < RangeEnd(base, size) ::
              && !Claimable(entries, PageAt(base, k))
              && (forall j: nat | j < k :: Claimable(entries, PageAt(base, j)))
              && worst == (if TypeOf(entries, PageAt(base, k)).Some? then TypeOf(entries, PageAt(base, k)).value
                           else Reserved)
  {
    var start, end := RangeStart(base), RangeEnd(base, size);
    worst := Reserved;
    var haveFirst, pg := false, start;
    ghost var k := 0;
    while pg < end
      invariant k >= 0 && pg == PageAt(base, k)
      invariant forall j: nat | j < k :: Claimable(entries, PageAt(base, j))
      invariant haveFirst <==> k > 0
      invariant haveFirst ==> TypeOf(entries, start) == Some(worst)
      decreases end - pg
    {
      var t := Lookup(entries, pg);
      if t.Some? {
        if !haveFirst {
          worst, haveFirst := t.value, true;
        }
        if t.value != Usable && t.value != Bootloader {
          worst := t.value;
          assert !Claimable(entries, PageAt(base, k));
          return false, worst;
        }
      } else {
        worst := Reserved;
        assert !Claimable(entries, PageAt(base, k));
        return false, worst;
      }
      pg := pg + PAGE;
      k := k + 1;
    }
    forall j: nat | PageAt(base, j) < end
      ensures Claimable(entries, PageAt(base, j))
    {
      assert j < k;
    }
    ok := true;
  }

  /** The inner loop over the descriptors. */
  method Lookup(entries: seq<Descriptor>, page: nat) returns (t: Option<MemoryType>)
    ensures t == TypeOf(entries, page)
  {
    assert entries[0..] == entries;
    for i := 0 to |entries|
      invariant TypeOf(entries[i..], page) == TypeOf(entries, page)
    {
      assert entries[i..][1..] == entries[i + 1..];
      if Covers(entries[i], page) {
        return Some(Convert(entries[i].kind));
      }
    }
    t := None;
  }

  // ---------------------------------------------------------------------------
  // What the check says about the bytes of a range
  // ---------------------------------------------------------------------------

  ghost predicate BytesClaimable(entries: seq<Descriptor>, base: nat, size: nat) {
    forall a: nat | base <= a < base + size :: Claimable(entries, RangeStart(a))
  }

  /** Rounding the end of the range up to a page leaves 64 bits. */
  predicate EndWraps(base: nat, size: nat) {
    base + size + PAGE > TWO64
  }

  lemma WrappedEndIsZero(base: nat, size: nat)
    requires base + size <= TWO64 && EndWraps(base, size)
    ensures RangeEnd(base, size) == 0
  {
    var e := base + size + (PAGE - 1);
    assert e % TWO64 == e - TWO64;
  }

  lemma PlainEnd(base: nat, size: nat)
    requires !EndWraps(base, size)
    ensures RangeEnd(base, size) % PAGE == 0 && base + size <= RangeEnd(base, size) < base + size + PAGE
  {
    var e := base + size + (PAGE - 1);
    assert e % TWO64 == e;
  }

  /** Every byte lies on a page the check looks at. */
  lemma PageOfByte(base: nat, size: nat, a: nat) returns (k: nat)
    requires !EndWraps(base, size) && base <= a < base + size
    ensures PageAt(base, k) == RangeStart(a) && PageAt(base, k) < RangeEnd(base, size)
  {
    PlainEnd(base, size);
    k := (RangeStart(a) - RangeStart(base)) / PAGE;
  }

  /** Every page the check looks at holds a byte of a range that has one. */
  lemma ByteOfPage(base: nat, size: nat, k: nat) returns (a: nat)
    requires !EndWraps(base, size) && size > 0 && PageAt(base, k) < RangeEnd(base, size)
    ensures base <= a < base + size && RangeStart(a) == PageAt(base, k)
  {
    PlainEnd(base, size);
    a := if k == 0 then base else PageAt(base, k);
    PageIsAligned(base, k);
  }

  lemma PageIsAligned(base: nat, k: nat)
    ensures PageAt(base, k) % PAGE == 0 && (k > 0 ==> PageAt(base, k) > base)
  {
  }

  /** The check passes when its end wraps, whatever the map; otherwise exactly when every byte may be overwritten. */
  lemma ClaimableExactlyWhen(entries: seq<Descriptor>, base: nat, size: nat)
    requires 0 < size && base + size <= TWO64
    ensures RangeClaimable(entries, base, size) <==> EndWraps(base, size) || BytesClaimable(entries, base, size)
  {
    if EndWraps(base, size) {
      WrappedEndIsZero(base, size);
    } else {
      if RangeClaimable(entries, base, size) {
        forall a: nat | base <= a < base + size
          ensures Claimable(entries, RangeStart(a))
        {
          var k := PageOfByte(base, size, a);
        }
      }
      if BytesClaimable(entries, base, size) {
        forall k: nat | PageAt(base, k) < RangeEnd(base, size)
          ensures Claimable(entries, PageAt(base, k))
        {
          var a := ByteOfPage(base, size, k);
        }
      }
    }
  }

  /** Main theorem: the check is safe for a range, under every memory map, if and only if its end does not wrap. */
  lemma CheckIsSafeExactlyWhen(base: nat, size: nat)
    requires 0 < size && base + size <= TWO64
    ensures (forall entries :: RangeClaimable(entries, base, size) ==> BytesClaimable(entries, base, size))
            <==> !EndWraps(base, size)
  {
    forall entries
      ensures RangeClaimable(entries, base, size) <==> EndWraps(base, size) || BytesClaimable(entries, base, size)
    {
      ClaimableExactlyWhen(entries, base, size);
    }
    var none: seq<Descriptor> := [];
    assert !Claimable(none, RangeStart(base));
    assert !BytesClaimable(none, base, size);
    assert EndWraps(base, size) ==> RangeClaimable(none, base, size);
  }

  /** An empty range is looked at only where its base is inside a page. */
  lemma EmptyRange(entries: seq<Descriptor>, base: nat)
    requires base < TWO64
    ensures RangeClaimable(entries, base, 0)
            <==> base % PAGE == 0 || EndWraps(base, 0) || Claimable(entries, RangeStart(base))
  {
    if EndWraps(base, 0) {
      WrappedEndIsZero(base, 0);
    } else {
      OnlyBasePage(base);
      if base % PAGE != 0 && Claimable(entries, RangeStart(base)) {
        forall k: nat | PageAt(base, k) < RangeEnd(base, 0)
          ensures Claimable(entries, PageAt(base, k))
        {
        }
      }
    }
  }

  lemma OnlyBasePage(base: nat)
    requires !EndWraps(base, 0)
    ensures PageAt(base, 0) == RangeStart(base)
    ensures PageAt(base, 0) < RangeEnd(base, 0) <==> base % PAGE != 0
    ensures forall k: nat | PageAt(base, k) < RangeEnd(base, 0) :: k == 0
  {
    PlainEnd(base, 0);
  }

  // ---------------------------------------------------------------------------
  // Segments
  // ---------------------------------------------------------------------------

  type Memory = int -> byte

  function Copy(m: Memory, dst: nat, data: seq<byte>): Memory {
    a => if dst <= a < dst + |data| then data[a - dst] else m(a)
  }

  function Zero(m: Memory, dst: nat, n: nat): Memory {
    a => if dst <= a < dst + n then 0 else m(a)
  }

  /** One loadable segment: its file bytes, then zeros. */
  function PlaceSegment(m: Memory, f: File, s: Segment): Memory
    requires s.offset + s.filesz <= |f| && s.filesz <= s.memsz
  {
    var copied := Copy(m, s.vaddr, f[s.offset..s.offset + s.filesz]);
    if s.memsz > s.filesz then Zero(copied, s.vaddr + s.filesz, s.memsz - s.filesz) else copied
  }

  predicate Loads(s: Segment) {
    s.kind == PT_LOAD
  }

  predicate Holds(s: Segment, a: int) {
    Loads(s) && s.vaddr <= a < s.vaddr + s.memsz
  }

  predicate SegmentsOk(f: File, segs: seq<Segment>) {
    forall i | 0 <= i < |segs| && Loads(segs[i]) ::
      && segs[i].offset + segs[i].filesz <= |f| && segs[i].filesz <= segs[i].memsz
      && segs[i].vaddr + segs[i].memsz < TWO64
  }

  function PlaceAll(m: Memory, f: File, segs: seq<Segment>): Memory
    requires SegmentsOk(f, segs)
  {
    if segs == [] then m
    else
      var front, s := segs[..|segs| - 1], segs[|segs| - 1];
      var before := PlaceAll(m, f, front);
      if Loads(s) then PlaceSegment(before, f, s) else before
  }

  /** The byte a segment links at an address it holds. */
  function Linked(f: File, s: Segment, a: int): byte
    requires Holds(s, a) && s.offset + s.filesz <= |f|
  {
    if a < s.vaddr + s.filesz then f[s.offset + (a - s.vaddr)] else 0
  }

  lemma PlacedByte(m: Memory, f: File, s: Segment, a: int)
    requires Loads(s) && s.offset + s.filesz <= |f| && s.filesz <= s.memsz
    ensures PlaceSegment(m, f, s)(a) == if Holds(s, a) then Linked(f, s, a) else m(a)
  {
    var data := f[s.offset..s.offset + s.filesz];
    if s.vaddr <= a < s.vaddr + s.filesz {
      assert data[a - s.vaddr] == f[s.offset + (a - s.vaddr)];
    }
  }

  lemma {:induction false} UncoveredIsUntouched(m: Memory, f: File, segs: seq<Segment>, a: int)
    requires SegmentsOk(f, segs) && forall i | 0 <= i < |segs| :: !Holds(segs[i], a)
    ensures PlaceAll(m, f, segs)(a) == m(a)
  {
    if segs != [] {
      var n := |segs| - 1;
      UncoveredIsUntouched(m, f, segs[..n], a);
      if Loads(segs[n]) {
        PlacedByte(PlaceAll(m, f, segs[..n]), f, segs[n], a);
      }
    }
  }

  /**
   Main theorem: after loading, an address holds what the last segment covering it
   links there, file byte or zero. UncoveredIsUntouched is the rest of memory.
   */
  lemma {:induction false} LastSegmentWins(m: Memory, f: File, segs: seq<Segment>, i: nat, a: int)
    requires SegmentsOk(f, segs) && i < |segs| && Holds(segs[i], a)
    requires forall j | i < j < |segs| :: !Holds(segs[j], a)
    ensures PlaceAll(m, f, segs)(a) == Linked(f, segs[i], a)
  {
    var n := |segs| - 1;
    if Loads(segs[n]) {
      PlacedByte(PlaceAll(m, f, segs[..n]), f, segs[n], a);
    }
    if i < n {
      assert segs[..n][i] == segs[i];
      LastSegmentWins(m, f, segs[..n], i, a);
    }
  }

  predicate Disjoint(segs: seq<Segment>) {
    forall i, j | 0 <= i < j < |segs| && Loads(segs[i]) && Loads(segs[j]) ::
      segs[i].vaddr + segs[i].memsz <= segs[j].vaddr || segs[j].vaddr + segs[j].memsz <= segs[i].vaddr
  }

  /** With disjoint segments each one is fully in place: file bytes, then zeros to its memory size. */
  lemma DisjointSegmentsAreExact(m: Memory, f: File, segs: seq<Segment>)
    requires SegmentsOk(f, segs) && Disjoint(segs)
    ensures forall i, a: int | 0 <= i < |segs| && Holds(segs[i], a) :: PlaceAll(m, f, segs)(a) == Linked(f, segs[i], a)
  {
    forall i, a: int | 0 <= i < |segs| && Holds(segs[i], a)
      ensures PlaceAll(m, f, segs)(a) == Linked(f, segs[i], a)
    {
      LastSegmentWins(m, f, segs, i, a);
    }
  }

  // ---------------------------------------------------------------------------
  // The loading loop
  // ---------------------------------------------------------------------------

  function Low(segs: seq<Segment>): nat {
    if segs == [] then TWO64 - 1
    else
      var lo, s := Low(segs[..|segs| - 1]), segs[|segs| - 1];
      if Loads(s) && s.vaddr < lo then s.vaddr else lo
  }

  function High(segs: seq<Segment>): nat {
    if segs == [] then 0
    else
      var hi, s := High(segs[..|segs| - 1]), segs[|segs| - 1];
      if Loads(s) && s.vaddr + s.memsz > hi then s.vaddr + s.memsz else hi
  }

  /** The recorded range is the exact hull of the loaded segments. */
  lemma {:induction false} HullIsExact(segs: seq<Segment>)
    ensures forall i | 0 <= i < |segs| && Loads(segs[i]) ::
              Low(segs) <= segs[i].vaddr && segs[i].vaddr + segs[i].memsz <= High(segs)
    ensures Low(segs) != TWO64 - 1 ==> exists i | 0 <= i < |segs| :: Loads(segs[i]) && segs[i].vaddr == Low(segs)
    ensures High(segs) != 0 ==>
              exists i | 0 <= i < |segs| :: Loads(segs[i]) && segs[i].vaddr + segs[i].memsz == High(segs)
  {
    if segs != [] {
      var n := |segs| - 1;
      var front := segs[..n];
      HullIsExact(front);
      assert forall i | 0 <= i < n :: front[i] == segs[i];
      if Low(segs) != TWO64 - 1 {
        if Low(segs) == Low(front) && Low(front) != TWO64 - 1 {
          var i :| 0 <= i < |front| && Loads(front[i]) && front[i].vaddr == Low(front);
          assert Loads(segs[i]) && segs[i].vaddr == Low(segs);
        } else {
          assert Loads(segs[n]) && segs[n].vaddr == Low(segs);
        }
      }
      if High(segs) != 0 {
        if High(segs) == High(front) && High(front) != 0 {
          var i :| 0 <= i < |front| && Loads(front[i]) && front[i].vaddr + front[i].memsz == High(front);
          assert Loads(segs[i]) && segs[i].vaddr + segs[i].memsz == High(segs);
        } else {
          assert Loads(segs[n]) && segs[n].vaddr + segs[n].memsz == High(segs);
        }
      }
    }
  }

  /** A busy segment address is refused when the memory map is known and the check does not pass. */
  ghost predicate Refused(s: Segment, free: bool, probe: Option<seq<Descriptor>>) {
    Loads(s) && !free && probe.Some? && !RangeClaimable(probe.value, s.vaddr, s.memsz)
  }

  /** In terms of the bytes: some byte may not be overwritten, and the end of the range does not wrap. */
  lemma RefusedExactlyWhen(s: Segment, free: bool, probe: Option<seq<Descriptor>>)
    requires s.memsz > 0 && SegmentFits(s)
    ensures Refused(s, free, probe) <==>
            && Loads(s) && !free && probe.Some?
            && !EndWraps(s.vaddr, s.memsz) && !BytesClaimable(probe.value, s.vaddr, s.memsz)
  {
    if Loads(s) && probe.Some? {
      ClaimableExactlyWhen(probe.value, s.vaddr, s.memsz);
    }
  }

  /** Where the check fails: a busy segment in the last page is placed although no descriptor covers any byte of it. */
  lemma LastPageEscapes(s: Segment)
    requires Loads(s) && s.vaddr == TWO64 - PAGE && s.memsz == PAGE - 1
    ensures SegmentFits(s) && !Refused(s, false, Some([])) && !BytesClaimable([], s.vaddr, s.memsz)
  {
    RefusedExactlyWhen(s, false, Some([]));
    assert !Claimable([], RangeStart(s.vaddr));
  }

  predicate SegmentFits(s: Segment) {
    Loads(s) ==> s.vaddr + s.memsz < TWO64
  }

  /** What a segment that was placed is known to overwrite. */
  ghost predicate Verified(s: Segment, free: bool, probe: Option<seq<Descriptor>>) {
    Loads(s) && !free && probe.Some? && s.memsz > 0 && !EndWraps(s.vaddr, s.memsz) ==>
      BytesClaimable(probe.value, s.vaddr, s.memsz)
  }

  lemma PlacedIsVerified(segs: seq<Segment>, free: nat -> bool, probe: Option<seq<Descriptor>>)
    requires forall i | 0 <= i < |segs| && Loads(segs[i]) :: SegmentFits(segs[i])
    requires forall i | 0 <= i < |segs| :: !Refused(segs[i], free(i), probe)
    ensures forall i | 0 <= i < |segs| :: Verified(segs[i], free(i), probe)
  {
    forall i | 0 <= i < |segs|
      ensures Verified(segs[i], free(i), probe)
    {
      if Loads(segs[i]) && segs[i].memsz > 0 {
        RefusedExactlyWhen(segs[i], free(i), probe);
      }
    }
  }

  class Loader {
    var mem: Memory
    var base: nat
    var size: nat

    constructor (mem: Memory)
      ensures this.mem == mem && base == 0 && size == 0
    {
      this.mem, base, size := mem, 0, 0;
    }

    /** `free(i)` is whether the firmware grants segment i its pages; `probe` its memory map, if it gave one. */
    method LoadSegments(f: File, segs: seq<Segment>, free: nat -> bool, probe: Option<seq<Descriptor>>)
      returns (ok: bool)
      requires SegmentsOk(f, segs)
      modifies this
      ensures ok <==> forall i | 0 <= i < |segs| :: !Refused(segs[i], free(i), probe)
      ensures ok ==> forall i | 0 <= i < |segs| :: Verified(segs[i], free(i), probe)
      ensures ok ==> mem == PlaceAll(old(mem), f, segs)
      ensures ok ==> base == Low(segs) && size == (High(segs) - Low(segs)) % TWO64
    {
      var lo, hi := TWO64 - 1, 0;
      assert segs[..0] == [];
      for i := 0 to |segs|
        invariant SegmentsOk(f, segs[..i]) && mem == PlaceAll(old(mem), f, segs[..i])
        invariant lo == Low(segs[..i]) && hi == High(segs[..i])
        invariant forall j | 0 <= j < i :: !Refused(segs[j], free(j), probe)
      {
        assert segs[..i + 1][..i] == segs[..i];
        var s := segs[i];
        if s.kind == PT_LOAD {
          if s.vaddr < lo {
            lo := s.vaddr;
          }
          if s.vaddr + s.memsz > hi {
            hi := s.vaddr + s.memsz;
          }
          var granted := MayPlace(s, free(i), probe);
          if !granted {
            return false;
          }
          PutSegment(f, s);
        }
      }
      assert segs[..|segs|] == segs;
      PlacedIsVerified(segs, free, probe);
      base, size := lo, (hi - lo) % TWO64;
      ok := true;
    }

    /** A busy range is verified against the memory map before it is overwritten. */
    method MayPlace(s: Segment, free: bool, probe: Option<seq<Descriptor>>) returns (ok: bool)
      requires Loads(s)
      ensures ok <==> !Refused(s, free, probe)
    {
      ok := true;
      if !free && probe.Some? {
        var claimable, _ := SegRangeIsClaimable(probe.value, s.vaddr, s.memsz);
        ok := claimable;
      }
    }

    method PutSegment(f: File, s: Segment)
      requires s.offset + s.filesz <= |f| && s.filesz <= s.memsz
      modifies this`mem
      ensures mem == PlaceSegment(old(mem), f, s)
    {
      mem := Copy(mem, s.vaddr, f[s.offset..s.offset + s.filesz]);
      if s.memsz > s.filesz {
        mem := Zero(mem, s.vaddr + s.filesz, s.memsz - s.filesz);
      }
    }
  }

  /** No loadable segment runs past the end of the address space. */
  predicate MemoryFits(im: Image) {
    forall i: nat | i < im.header.phnum :: SegmentFits(im.table(i))
  }

  /** The program headers of an image, in order. */
  function SegmentsOf(im: Image): seq<Segment> {
    seq(im.header.phnum, i requires 0 <= i < im.header.phnum => im.table(i))
  }

  /**
   Main theorem: acceptance is what loading needs. Every byte it reads lies inside the
   file, and if the segments are disjoint each ends up fully in place at its address.
   */
  lemma AcceptedImagesLoad(f: File, outside: Outside, m: Memory)
    requires Accepts(ImageOf(f, outside)) && SumsFit(ImageOf(f, outside)) && MemoryFits(ImageOf(f, outside))
    ensures var segs := SegmentsOf(ImageOf(f, outside));
            && SegmentsOk(f, segs)
            && (Disjoint(segs) ==> forall i, a: int | 0 <= i < |segs| && Holds(segs[i], a) ::
                                     PlaceAll(m, f, segs)(a) == Linked(f, segs[i], a))
  {
    var im := ImageOf(f, outside);
    SegmentsFit(f, im);
    if Disjoint(SegmentsOf(im)) {
      DisjointSegmentsAreExact(m, f, SegmentsOf(im));
    }
  }

  lemma SegmentsFit(f: File, im: Image)
    requires Accepts(im) && SumsFit(im) && MemoryFits(im) && im.size == |f|
    ensures SegmentsOk(f, SegmentsOf(im))
  {
    AcceptanceIsWellFormedness(im);
    var segs := SegmentsOf(im);
    forall i | 0 <= i < |segs| && Loads(segs[i])
      ensures segs[i].offset + segs[i].filesz <= |f| && segs[i].filesz <= segs[i].memsz
              && segs[i].vaddr + segs[i].memsz < TWO64
    {
      assert segs[i] == im.table(i);
      assert SegmentInside(im.table(i), |f|) && SegmentFits(im.table(i));
    }
  }
}
