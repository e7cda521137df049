/** What each kind of report says about a device, read off its bytes. */
module DiscoveryFields {
  import opened Bytes
  import opened Discovery
  import opened Advertising

  /** An LE report sets the address type, the kind of advertising and the strength. */
  lemma LeReportSays(d: Dev, addrType: byte, advType: byte, rssi: int, ad: seq<byte>)
    requires |d.name| == 32
    ensures var e := Observe(d, LeReport(addrType, advType, rssi, ad));
            e.key == d.key && e.addrType == addrType && e.advType == advType && e.rssi == rssi && e.cod == d.cod
  {
    ParseTouchesNoReport(d.(addrType := addrType, advType := advType, rssi := rssi), ad);
  }

  lemma {:induction false} ParseTouchesNoReport(d: Dev, ad: seq<byte>)
    requires |d.name| == 32
    ensures var e := ParseAdv(d, ad);
            e.addrType == d.addrType && e.advType == d.advType && e.rssi == d.rssi && e.cod == d.cod
    decreases |ad|
  {
    if |ad| >= 2 && ad[0] != 0 && 1 + ad[0] <= |ad| {
      ParseTouchesNoReport(Apply(d, ad[1], ad[2..1 + ad[0]]), ad[1 + ad[0]..]);
    }
  }

  /** An inquiry sets the class, and the strength where it has one; neither type applies to it. */
  lemma InquirySays(d: Dev, rssi: int, cod: int, eir: seq<byte>)
    requires |d.name| == 32
    ensures var e := Observe(d, Sighting.Inquiry(rssi, cod, eir));
            e.key == d.key && e.addrType == 0 && e.advType == 0xFF && e.cod == cod
            && e.rssi == if rssi == 0 then d.rssi else rssi
  {
    var e := d.(addrType := 0, advType := 0xFF, rssi := if rssi != 0 then rssi else d.rssi, cod := cod);
    ParseTouchesNoReport(ClassOf(e, cod), eir);
  }

  /**
   A peripheral (major class 5) is HID; bit 6 of its lowest class byte makes it a keyboard,
   bit 7 alone a pointer. Other classes say nothing.
   */
  lemma ClassSays(d: Dev, rssi: int, c0: byte, c1: byte, c2: byte)
    requires |d.name| == 32
    ensures var cod := (c0 as int) + 0x100 * (c1 as int) + 0x1_0000 * (c2 as int);
            var e := Observe(d, Sighting.Inquiry(rssi, cod, []));
            && e.name == d.name
            && (e.isHid <==> d.isHid || c1 % 32 == 5)
            && e.appearance == if c1 % 32 != 5 then d.appearance
                               else if c0 % 0x80 >= 0x40 then 1 else if c0 >= 0x80 then 2 else d.appearance
  {
    var low: int, middle: int, high: int := c0, c1, c2;
    MiddleByte(low, middle, high);
    var rest := middle + 0x100 * high;
    KeyboardBit(low, rest);
    PointerBit(low, rest);
  }

  lemma MiddleByte(c0: int, c1: int, c2: int)
    requires 0 <= c0 < 0x100 && 0 <= c1 < 0x100 && 0 <= c2
    ensures (c0 + 0x100 * c1 + 0x1_0000 * c2) / 0x100 % 0x20 == c1 % 0x20
  {
    var q := c1 + 0x100 * c2;
    Hundreds(q, c0);
    assert c0 + 0x100 * c1 + 0x1_0000 * c2 == 0x100 * q + c0;
    Thirties(c1, 8 * c2);
    assert q == c1 + 0x20 * (8 * c2);
  }

  lemma Hundreds(q: int, r: int)
    requires 0 <= r < 0x100
    ensures (0x100 * q + r) / 0x100 == q
  {
  }

  lemma Thirties(q: int, k: int)
    ensures (q + 0x20 * k) % 0x20 == q % 0x20
  {
  }

  /** Quotient and parity of a number written out in units of 64. */
  lemma Sixties(q: int, r: int)
    requires 0 <= r < 0x40
    ensures (0x40 * q + r) / 0x40 == q
  {
  }

  lemma Parity(q: int, k: int)
    ensures (q + 2 * k) % 2 == q % 2
  {
  }

  lemma KeyboardBit(c0: int, rest: int)
    requires 0 <= c0 < 0x100 && 0 <= rest
    ensures (c0 + 0x100 * rest) / 0x40 % 2 == 1 <==> c0 % 0x80 >= 0x40
  {
    var q, r := c0 / 0x40, c0 % 0x40;
    Sixties(q + 4 * rest, r);
    assert c0 + 0x100 * rest == 0x40 * (q + 4 * rest) + r;
    Parity(q, 2 * rest);
    LowByte(c0);
  }

  lemma LowByte(c0: int)
    requires 0 <= c0 < 0x100
    ensures c0 / 0x40 % 2 == 1 <==> c0 % 0x80 >= 0x40
  {
  }

  lemma PointerBit(c0: int, rest: int)
    requires 0 <= c0 < 0x100 && 0 <= rest
    ensures (c0 + 0x100 * rest) / 0x80 % 2 == 1 <==> c0 >= 0x80
  {
    assert (c0 + 0x100 * rest) / 0x80 == c0 / 0x80 + 2 * rest;
    Parity(c0 / 0x80, rest);
  }

  // ---------------------------------------------------------------------------
  // Appearance
  // ---------------------------------------------------------------------------

  /** The appearance characteristic of a keyboard (0x03C1) or a mouse (0x03C2). */
  predicate IsAppearance(x: Structure, kind: int) {
    x.kind == 0x19 && |x.val| >= 2 && x.val[1] == 0x03 && x.val[0] == 0xC0 + kind && 1 <= kind <= 2
  }

  predicate TellsAppearance(x: Structure) {
    IsAppearance(x, 1) || IsAppearance(x, 2)
  }

  lemma {:induction false} AppearanceUnchanged(d: Dev, l: seq<Structure>)
    requires |d.name| == 32 && forall i | 0 <= i < |l| :: !TellsAppearance(l[i])
    ensures ApplyAll(d, l).appearance == d.appearance
    decreases |l|
  {
    if l != [] {
      assert !TellsAppearance(l[0]);
      AppearanceUnchanged(Apply(d, l[0].kind, l[0].val), l[1..]);
    }
  }

  lemma {:induction false} AppliedAppearance(d: Dev, l: seq<Structure>, i: nat, kind: int)
    requires |d.name| == 32 && i < |l| && IsAppearance(l[i], kind)
    requires forall j | i < j < |l| :: !TellsAppearance(l[j])
    ensures ApplyAll(d, l).appearance == kind
    decreases |l|
  {
    var e := Apply(d, l[0].kind, l[0].val);
    if i == 0 {
      AppearanceUnchanged(e, l[1..]);
    } else {
      AppliedAppearance(e, l[1..], i - 1, kind);
    }
  }

  /** Of several appearances the last one is kept: 1 for a keyboard, 2 for a mouse. */
  lemma LastAppearanceIsKept(d: Dev, l: seq<Structure>, zeros: seq<byte>, i: nat, kind: int)
    requires |d.name| == 32 && StructuresOk(l) && forall k | 0 <= k < |zeros| :: zeros[k] == 0
    requires i < |l| && IsAppearance(l[i], kind) && forall j | i < j < |l| :: !TellsAppearance(l[j])
    ensures ParseAdv(d, EncodeAdv(l) + zeros).appearance == kind
  {
    ParseInvertsEncode(d, l, zeros);
    AppliedAppearance(d, l, i, kind);
  }

  /** Without one the appearance stays as it was. */
  lemma OtherDataKeepsAppearance(d: Dev, l: seq<Structure>, zeros: seq<byte>)
    requires |d.name| == 32 && StructuresOk(l) && forall k | 0 <= k < |zeros| :: zeros[k] == 0
    requires forall i | 0 <= i < |l| :: !TellsAppearance(l[i])
    ensures ParseAdv(d, EncodeAdv(l) + zeros).appearance == d.appearance
  {
    ParseInvertsEncode(d, l, zeros);
    AppearanceUnchanged(d, l);
  }

  // ---------------------------------------------------------------------------
  // The other two events
  // ---------------------------------------------------------------------------

  /** The parameters of an extended inquiry result: one response, `skipped` and `clock` unread. */
  function ExtendedParams(
    addr: Addr, skipped: seq<byte>, cod: seq<byte>, clock: seq<byte>, rssi: int, eir: seq<byte>): seq<byte>
  {
    [1] + addr + skipped + cod + clock + [rssi % 0x100] + eir
  }

  lemma ExtendedInquiryIsRead(
    addr: Addr, skipped: seq<byte>, cod: seq<byte>, clock: seq<byte>, rssi: int, eir: seq<byte>)
    requires |addr| == 6 && |skipped| == 2 && |cod| == 3 && |clock| == 2 && -0x80 <= rssi < 0x80
    ensures Decode(ExtInquiry(ExtendedParams(addr, skipped, cod, clock, rssi, eir)))
            == [(addr, Sighting.Inquiry(rssi, cod[0] as int + 0x100 * cod[1] as int + 0x1_0000 * cod[2] as int, eir))]
  {
    var p := ExtendedParams(addr, skipped, cod, clock, rssi, eir);
    assert p[1..7] == addr && p[15..] == eir && p[14] == rssi % 0x100;
    assert p[9..12] == cod;
    assert p[9] == p[9..12][0] && p[10] == p[9..12][1] && p[11] == p[9..12][2];
  }

  /** A name answer: a status, the address, and a name that a zero byte ends. */
  function NameParams(status: byte, addr: Addr, name: seq<byte>, rest: seq<byte>): seq<byte> {
    [status] + addr + name + [0] + rest
  }

  lemma {:induction false} NulFound(name: seq<byte>, rest: seq<byte>)
    requires 0 !in name
    ensures UpToNul(name + [0] + rest) == |name|
    decreases |name|
  {
    var s := name + [0] + rest;
    if name != [] {
      assert s[1..] == name[1..] + [0] + rest;
      NulFound(name[1..], rest);
    }
  }

  /** The classic device of that address shows the name; nothing else changes. */
  lemma NameIsTaken(c: Cache, addr: Addr, name: seq<byte>, rest: seq<byte>, i: nat)
    requires NamesSized(c.devs) && UniqueKeys(c.devs) && |addr| == 6 && 0 !in name
    requires i < |c.devs| && c.devs[i].key == Key(addr, false)
    ensures var r := Step(c, RemoteName(NameParams(0, addr, name, rest)));
            && r.fired == c.fired && |r.devs| == |c.devs|
            && Shows(r.devs[i].name, name) && r.devs[i].(name := c.devs[i].name) == c.devs[i]
            && forall j | 0 <= j < |c.devs| && j != i :: r.devs[j] == c.devs[j]
  {
    var p := NameParams(0, addr, name, rest);
    assert p[1..7] == addr && p[7..] == name + [0] + rest;
    NulFound(name, rest);
    assert p[7..7 + |name|] == name;
    var k := FindDev(c.devs, Key(addr, false));
    assert k < |c.devs| && k == i;
  }

  /** A failed answer, or one for a device that is not cached, changes nothing. */
  lemma OtherNamesChangeNothing(c: Cache, status: byte, addr: Addr, name: seq<byte>, rest: seq<byte>)
    requires NamesSized(c.devs) && |addr| == 6
    requires status != 0 || forall i | 0 <= i < |c.devs| :: c.devs[i].key != Key(addr, false)
    ensures Step(c, RemoteName(NameParams(status, addr, name, rest))) == c
  {
    var p := NameParams(status, addr, name, rest);
    assert p[1..7] == addr && p[0] == status;
  }
}
