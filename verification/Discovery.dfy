/**
 Discovered devices: decoding advertising and inquiry results, and the bounded
 cache they feed. A sighting is what one report says about one device.
 */
module Discovery {
  import opened Bytes

  const CAPACITY := 24
  const NAME_LEN := 32

  type Addr = seq<byte>

  datatype Key = Key(addr: Addr, le: bool)

  datatype Dev = Dev(
    key: Key, addrType: byte, advType: byte, rssi: int, isHid: bool, appearance: byte, cod: int, name: seq<byte>)

  function Blank(key: Key): Dev {
    Dev(key, 0, 0, 0, false, 0, 0, seq(NAME_LEN, _ => 0))
  }

  function Signed(b: byte): int {
    if b < 0x80 then b else b - 0x100
  }

  // ---------------------------------------------------------------------------
  // Advertising data
  // ---------------------------------------------------------------------------

  /** A name copied into the fixed field: cut to 31 bytes, terminated, older bytes after it kept. */
  function SetName(name: seq<byte>, val: seq<byte>): (r: seq<byte>)
    requires |name| == NAME_LEN
    ensures |r| == NAME_LEN
  {
    var n := Min(|val|, NAME_LEN - 1);
    val[..n] + [0] + name[n + 1..]
  }

  predicate HasHidUuid(val: seq<byte>) {
    |val| >= 2 && (Rd16(val, 0) == 0x1812 || Rd16(val, 0) == 0x1124 || HasHidUuid(val[2..]))
  }

  /** The effect of one structure of advertising data. */
  function Apply(d: Dev, kind: byte, val: seq<byte>): (r: Dev)
    requires |d.name| == NAME_LEN
    ensures |r.name| == NAME_LEN && r.key == d.key && (d.isHid ==> r.isHid)
  {
    if kind == 0x08 || kind == 0x09 then d.(name := SetName(d.name, val))
    else if kind == 0x02 || kind == 0x03 then d.(isHid := d.isHid || HasHidUuid(val))
    else if kind == 0x19 && |val| >= 2 then
      var ap := Rd16(val, 0);
      if ap == 0x03C1 then d.(isHid := true, appearance := 1)
      else if ap == 0x03C2 then d.(isHid := true, appearance := 2)
      else if ap / 0x40 == 0x0F then d.(isHid := true)
      else d
    else d
  }

  function ParseAdv(d: Dev, ad: seq<byte>): (r: Dev)
    requires |d.name| == NAME_LEN
    ensures |r.name| == NAME_LEN && r.key == d.key && (d.isHid ==> r.isHid)
    decreases |ad|
  {
    if |ad| < 2 || ad[0] == 0 || 1 + ad[0] > |ad| then d
    else ParseAdv(Apply(d, ad[1], ad[2..1 + ad[0]]), ad[1 + ad[0]..])
  }

  datatype Structure = Structure(kind: byte, val: seq<byte>)

  predicate StructuresOk(l: seq<Structure>) {
    forall i | 0 <= i < |l| :: |l[i].val| <= 254
  }

  function EncodeAdv(l: seq<Structure>): seq<byte>
    requires StructuresOk(l)
  {
    if l == [] then [] else [|l[0].val| + 1, l[0].kind] + l[0].val + EncodeAdv(l[1..])
  }

  function ApplyAll(d: Dev, l: seq<Structure>): Dev
    requires |d.name| == NAME_LEN
    decreases |l|
  {
    if l == [] then d else ApplyAll(Apply(d, l[0].kind, l[0].val), l[1..])
  }

  /** Parsing an encoded list, followed by any number of zero bytes, is folding over the list. */
  lemma {:induction false} ParseInvertsEncode(d: Dev, l: seq<Structure>, zeros: seq<byte>)
    requires |d.name| == NAME_LEN && StructuresOk(l)
    requires forall i | 0 <= i < |zeros| :: zeros[i] == 0
    ensures ParseAdv(d, EncodeAdv(l) + zeros) == ApplyAll(d, l)
    decreases |l|
  {
    if l == [] {
      assert EncodeAdv(l) + zeros == zeros;
    } else {
      var n := |l[0].val| + 1;
      var ad := EncodeAdv(l) + zeros;
      assert ad == [n, l[0].kind] + l[0].val + (EncodeAdv(l[1..]) + zeros);
      assert ad[2..1 + n] == l[0].val && ad[1 + n..] == EncodeAdv(l[1..]) + zeros;
      ParseInvertsEncode(Apply(d, l[0].kind, l[0].val), l[1..], zeros);
    }
  }

  predicate Terminated(name: seq<byte>) {
    |name| == NAME_LEN && exists i | 0 <= i < |name| :: name[i] == 0
  }

  lemma SetNameTerminates(name: seq<byte>, val: seq<byte>)
    requires |name| == NAME_LEN
    ensures Terminated(SetName(name, val))
  {
    var n := Min(|val|, NAME_LEN - 1);
    assert SetName(name, val)[n] == 0;
  }

  /** For arbitrary bytes, the name field stays a terminated string. */
  lemma {:induction false} ParseKeepsNameTerminated(d: Dev, ad: seq<byte>)
    requires Terminated(d.name)
    ensures Terminated(ParseAdv(d, ad).name)
    decreases |ad|
  {
    if |ad| >= 2 && ad[0] != 0 && 1 + ad[0] <= |ad| {
      var val := ad[2..1 + ad[0]];
      SetNameTerminates(d.name, val);
      ParseKeepsNameTerminated(Apply(d, ad[1], val), ad[1 + ad[0]..]);
    }
  }

  // ---------------------------------------------------------------------------
  // The cache
  // ---------------------------------------------------------------------------

  datatype Sighting =
    | LeReport(addrType: byte, advType: byte, rssi: int, ad: seq<byte>)
    | Inquiry(rssi: int, cod: int, eir: seq<byte>)

  function ClassOf(d: Dev, cod: int): (r: Dev)
    ensures r.name == d.name && r.key == d.key && (d.isHid ==> r.isHid)
  {
    if cod / 0x100 % 0x20 == 5 then
      d.(isHid := true,
         appearance := if cod / 0x40 % 2 == 1 then 1 else if cod / 0x80 % 2 == 1 then 2 else d.appearance)
    else d
  }

  function Observe(d: Dev, s: Sighting): (r: Dev)
    requires |d.name| == NAME_LEN
    ensures |r.name| == NAME_LEN && r.key == d.key && (d.isHid ==> r.isHid)
  {
    match s
    case LeReport(addrType, advType, rssi, ad) =>
      ParseAdv(d.(addrType := addrType, advType := advType, rssi := rssi), ad)
    case Inquiry(rssi, cod, eir) =>
      var e := d.(addrType := 0, advType := 0xFF, rssi := if rssi != 0 then rssi else d.rssi, cod := cod);
      ParseAdv(ClassOf(e, cod), eir)
  }

  /** Devices in order of first sighting, and the HID-found callbacks made since the last clear. */
  datatype Cache = Cache(devs: seq<Dev>, fired: seq<Key>)

  function FindDev(devs: seq<Dev>, key: Key): (i: nat)
    ensures i <= |devs|
    ensures i < |devs| ==> devs[i].key == key
    ensures forall k | 0 <= k < i :: devs[k].key != key
  {
    if devs == [] then 0 else if devs[0].key == key then 0 else 1 + FindDev(devs[1..], key)
  }

  predicate NamesSized(devs: seq<Dev>) {
    forall i | 0 <= i < |devs| :: |devs[i].name| == NAME_LEN
  }

  function See(c: Cache, addr: Addr, s: Sighting): (r: Cache)
    requires NamesSized(c.devs)
    ensures NamesSized(r.devs)
  {
    var key := Key(addr, s.LeReport?);
    var i := FindDev(c.devs, key);
    if i == |c.devs| && |c.devs| >= CAPACITY then c
    else
      var was := if i < |c.devs| then c.devs[i] else Blank(key);
      var d := Observe(was, s);
      Cache(if i < |c.devs| then c.devs[i := d] else c.devs + [d],
            if d.isHid && !was.isHid then c.fired + [key] else c.fired)
  }

  function SeeAll(c: Cache, l: seq<(Addr, Sighting)>): (r: Cache)
    requires NamesSized(c.devs)
    ensures NamesSized(r.devs)
    decreases |l|
  {
    if l == [] then c else SeeAll(See(c, l[0].0, l[0].1), l[1..])
  }

  lemma SeeOne(c: Cache, addr: Addr, s: Sighting, rest: seq<(Addr, Sighting)>)
    requires NamesSized(c.devs)
    ensures SeeAll(c, [(addr, s)] + rest) == SeeAll(See(c, addr, s), rest)
  {
    assert ([(addr, s)] + rest)[1..] == rest;
  }

  // ---------------------------------------------------------------------------
  // Decoding events
  // ---------------------------------------------------------------------------

  /** LE advertising reports: `num` of them from offset `off`, cut off at the first that does not fit. */
  function DecodeReports(p: seq<byte>, off: nat, num: nat): seq<(Addr, Sighting)>
    decreases num
  {
    if num == 0 || off + 9 > |p| then []
    else
      var dlen: int := p[off + 8];
      if off + 9 + dlen + 1 > |p| then []
      else
        [(p[off + 2..off + 8], LeReport(p[off + 1], p[off], Signed(p[off + 9 + dlen]), p[off + 9..off + 9 + dlen]))]
        + DecodeReports(p, off + 10 + dlen, num - 1)
  }

  lemma NoReports(c: Cache, p: seq<byte>, off: nat)
    requires NamesSized(c.devs)
    ensures SeeAll(c, DecodeReports(p, off, 0)) == c
  {
  }

  /** A report that does not fit ends the reading. */
  predicate ReportCut(p: seq<byte>, off: nat) {
    off + 9 > |p| || off + 10 + p[off + 8] > |p|
  }

  lemma CutReportStops(c: Cache, p: seq<byte>, off: nat, num: nat)
    requires NamesSized(c.devs) && ReportCut(p, off)
    ensures SeeAll(c, DecodeReports(p, off, num)) == c
  {
    assert DecodeReports(p, off, num) == [];
  }

  lemma ReportFirst(p: seq<byte>, off: nat, num: nat, dlen: int, addr: Addr, s: Sighting)
    requires num > 0 && !ReportCut(p, off) && dlen == p[off + 8] && addr == p[off + 2..off + 8]
    requires s == LeReport(p[off + 1], p[off], Signed(p[off + 9 + dlen]), p[off + 9..off + 9 + dlen])
    ensures DecodeReports(p, off, num) == [(addr, s)] + DecodeReports(p, off + 10 + dlen, num - 1)
  {
  }

  function Cod(p: seq<byte>, i: nat): int
    requires i + 2 < |p|
  {
    var lo: int, hi: int := Rd16(p, i), p[i + 2];
    lo + 0x1_0000 * hi
  }

  /** Where the class-of-device array of an inquiry result starts. */
  function CodBase(num: nat, rssi: bool): nat {
    if rssi then 1 + num * 8 else 1 + num * 9
  }

  predicate InquiryFits(p: seq<byte>, num: nat, i: nat, rssi: bool) {
    CodBase(num, rssi) + i * 3 + 3 <= |p| && (rssi ==> 1 + num * 13 + i + 1 <= |p|)
  }

  function InquiryEntry(p: seq<byte>, num: nat, i: nat, rssi: bool): (Addr, Sighting)
    requires i < num && InquiryFits(p, num, i, rssi)
  {
    (p[1 + i * 6..7 + i * 6],
     Sighting.Inquiry(if rssi then Signed(p[1 + num * 13 + i]) else 0, Cod(p, CodBase(num, rssi) + i * 3), []))
  }

  /** Inquiry results hold one array per field; entry i takes element i of each. */
  function DecodeInquiry(p: seq<byte>, num: nat, i: nat, rssi: bool): seq<(Addr, Sighting)>
    requires i <= num
    decreases num - i
  {
    if i == num || !InquiryFits(p, num, i, rssi) then []
    else [InquiryEntry(p, num, i, rssi)] + DecodeInquiry(p, num, i + 1, rssi)
  }

  lemma InquiryEnds(c: Cache, p: seq<byte>, num: nat, i: nat, rssi: bool)
    requires NamesSized(c.devs) && i <= num && (i == num || !InquiryFits(p, num, i, rssi))
    ensures SeeAll(c, DecodeInquiry(p, num, i, rssi)) == c
  {
    assert DecodeInquiry(p, num, i, rssi) == [];
  }

  lemma InquiryFirst(p: seq<byte>, num: nat, i: nat, rssi: bool)
    requires i < num && InquiryFits(p, num, i, rssi)
    ensures DecodeInquiry(p, num, i, rssi) == [InquiryEntry(p, num, i, rssi)] + DecodeInquiry(p, num, i + 1, rssi)
  {
  }

  datatype Event =
    | AdvReport(p: seq<byte>)
    | InquiryResult(p: seq<byte>)
    | InquiryRssi(p: seq<byte>)
    | ExtInquiry(p: seq<byte>)
    | RemoteName(p: seq<byte>)
    | Clear

  function Decode(e: Event): seq<(Addr, Sighting)> {
    match e
    case AdvReport(p) => if |p| < 2 then [] else DecodeReports(p, 2, p[1])
    case InquiryResult(p) => if |p| < 1 then [] else DecodeInquiry(p, p[0], 0, false)
    case InquiryRssi(p) => if |p| < 1 then [] else DecodeInquiry(p, p[0], 0, true)
    case ExtInquiry(p) =>
      if |p| < 15 then [] else [(p[1..7], Sighting.Inquiry(Signed(p[14]), Cod(p, 9), p[15..]))]
    case _ => []
  }

  /** The bytes of a name up to its terminator. */
  function UpToNul(s: seq<byte>): (n: nat)
    ensures n <= |s|
  {
    if s == [] || s[0] == 0 then 0 else 1 + UpToNul(s[1..])
  }

  function Rename(c: Cache, p: seq<byte>): Cache
    requires NamesSized(c.devs)
  {
    if |p| < 7 || p[0] != 0 then c
    else
      var i := FindDev(c.devs, Key(p[1..7], false));
      if i == |c.devs| then c
      else c.(devs := c.devs[i := c.devs[i].(name := SetName(c.devs[i].name, p[7..7 + UpToNul(p[7..])]))])
  }

  function Step(c: Cache, e: Event): (r: Cache)
    requires NamesSized(c.devs)
    ensures NamesSized(r.devs)
  {
    match e
    case Clear => Cache([], [])
    case RemoteName(p) => Rename(c, p)
    case _ => SeeAll(c, Decode(e))
  }

  function Run(evs: seq<Event>): (c: Cache)
    ensures NamesSized(c.devs)
  {
    if evs == [] then Cache([], []) else Step(Run(evs[..|evs| - 1]), evs[|evs| - 1])
  }

  // ---------------------------------------------------------------------------
  // Decoding undoes encoding
  // ---------------------------------------------------------------------------

  predicate ReportOk(r: (Addr, Sighting)) {
    |r.0| == 6 && r.1.LeReport? && -0x80 <= r.1.rssi < 0x80 && |r.1.ad| < 0x100
  }

  function EncodeReport(r: (Addr, Sighting)): seq<byte>
    requires ReportOk(r)
  {
    [r.1.advType, r.1.addrType] + r.0 + [|r.1.ad|] + r.1.ad + [r.1.rssi % 0x100]
  }

  function EncodeReports(l: seq<(Addr, Sighting)>): seq<byte>
    requires forall i | 0 <= i < |l| :: ReportOk(l[i])
  {
    if l == [] then [] else EncodeReport(l[0]) + EncodeReports(l[1..])
  }

  /** Any list of advertising reports comes back in order, each once. */
  lemma {:induction false} ReportsRoundTrip(front: seq<byte>, l: seq<(Addr, Sighting)>)
    requires forall i | 0 <= i < |l| :: ReportOk(l[i])
    ensures DecodeReports(front + EncodeReports(l), |front|, |l|) == l
    decreases |l|
  {
    if l != [] {
      var o, rest := EncodeReport(l[0]), EncodeReports(l[1..]);
      assert front + EncodeReports(l) == front + o + rest;
      DecodeOne(front, l[0], rest, |l|);
      ReportsRoundTrip(front + o, l[1..]);
    }
  }

  lemma DecodeOne(front: seq<byte>, r: (Addr, Sighting), rest: seq<byte>, num: nat)
    requires ReportOk(r) && num > 0
    ensures var p := front + EncodeReport(r) + rest;
            DecodeReports(p, |front|, num) == [r] + DecodeReports(p, |front + EncodeReport(r)|, num - 1)
  {
    ReportAt(front, r, rest);
  }

  lemma ReportAt(front: seq<byte>, r: (Addr, Sighting), rest: seq<byte>)
    requires ReportOk(r)
    ensures var p, off, n := front + EncodeReport(r) + rest, |front|, |r.1.ad|;
            && off + 10 + n <= |p| && p[off + 8] == n && |front + EncodeReport(r)| == off + 10 + n
            && p[off] == r.1.advType && p[off + 1] == r.1.addrType && Signed(p[off + 9 + n]) == r.1.rssi
            && p[off + 2..off + 8] == r.0 && p[off + 9..off + 9 + n] == r.1.ad
  {
    var o, p, off, n := EncodeReport(r), front + EncodeReport(r) + rest, |front|, |r.1.ad|;
    assert p[off..off + |o|] == o;
    assert p[off + 2..off + 8] == o[2..8] == r.0;
    assert p[off + 9..off + 9 + n] == o[9..9 + n] == r.1.ad;
    assert p[off + 9 + n] == o[9 + n] && p[off + 8] == o[8] && p[off] == o[0] && p[off + 1] == o[1];
  }

  /** One inquiry response: address, class of device, and signal strength where the event has it. */
  datatype Response = Response(addr: Addr, cod: seq<byte>, rssi: int)

  predicate ResponsesOk(l: seq<Response>) {
    forall i | 0 <= i < |l| :: |l[i].addr| == 6 && |l[i].cod| == 3 && -0x80 <= l[i].rssi < 0x80
  }

  function Column(l: seq<Response>, field: int): seq<seq<byte>> {
    seq(|l|, i requires 0 <= i < |l| =>
      if field == 0 then l[i].addr else if field == 1 then l[i].cod else [l[i].rssi % 0x100])
  }

  /** The last column, of the event that reports signal strength. */
  function Strengths(l: seq<Response>, rssi: bool): seq<byte> {
    if rssi then Flatten(Column(l, 2)) else []
  }

  /** The parameters of an inquiry result: one column per field; `mid` and `clock` are the fields skipped. */
  function InquiryParams(l: seq<Response>, mid: seq<byte>, clock: seq<byte>, rssi: bool): seq<byte>
    requires |l| < 0x100
  {
    [|l|] + Flatten(Column(l, 0)) + mid + Flatten(Column(l, 1)) + clock + Strengths(l, rssi)
  }

  function AsSighting(r: Response, rssi: bool): (Addr, Sighting)
    requires |r.cod| == 3
  {
    (r.addr, Sighting.Inquiry(if rssi then r.rssi else 0, Cod(r.cod, 0), []))
  }

  lemma {:induction false} FlattenLength(ss: seq<seq<byte>>, size: nat)
    requires forall k | 0 <= k < |ss| :: |ss[k]| == size
    ensures |Flatten(ss)| == |ss| * size
  {
    if ss != [] {
      FlattenLength(ss[1..], size);
      assert |ss| * size == size + (|ss| - 1) * size;
    }
  }

  lemma {:induction false} FlattenSplit(ss: seq<seq<byte>>, i: nat)
    requires i < |ss|
    ensures Flatten(ss) == Flatten(ss[..i]) + ss[i] + Flatten(ss[i + 1..])
    decreases i
  {
    if i == 0 {
      assert Flatten(ss[..0]) == [];
      assert Flatten(ss) == [] + ss[0] + Flatten(ss[1..]);
    } else {
      FlattenSplit(ss[1..], i - 1);
      assert ss[1..][..i - 1] == ss[..i][1..] && ss[1..][i..] == ss[i + 1..];
      assert Flatten(ss[..i]) == ss[0] + Flatten(ss[..i][1..]);
    }
  }

  lemma FlattenAt(ss: seq<seq<byte>>, size: nat, i: nat)
    requires (forall k | 0 <= k < |ss| :: |ss[k]| == size) && i < |ss|
    ensures |Flatten(ss)| == |ss| * size && i * size + size <= |ss| * size
    ensures Flatten(ss)[i * size..i * size + size] == ss[i]
  {
    FlattenLength(ss, size);
    FlattenLength(ss[..i], size);
    FlattenSplit(ss, i);
  }

  /** The column decoder gives back the responses in order, with and without signal strength. */
  lemma {:induction false} InquiryRoundTrip(l: seq<Response>, mid: seq<byte>, clock: seq<byte>, rssi: bool, i: nat)
    requires LayoutOk(l, mid, clock, rssi) && i <= |l|
    ensures DecodeInquiry(InquiryParams(l, mid, clock, rssi), |l|, i, rssi) == Sightings(l[i..], rssi)
    decreases |l| - i
  {
    if i < |l| {
      InquiryEntryAt(l, mid, clock, rssi, i);
      InquiryRoundTrip(l, mid, clock, rssi, i + 1);
      assert l[i..][1..] == l[i + 1..];
    }
  }

  function Sightings(l: seq<Response>, rssi: bool): seq<(Addr, Sighting)>
    requires ResponsesOk(l)
  {
    if l == [] then [] else [AsSighting(l[0], rssi)] + Sightings(l[1..], rssi)
  }

  lemma ColumnLengths(l: seq<Response>)
    requires ResponsesOk(l)
    ensures |Flatten(Column(l, 0))| == |l| * 6 && |Flatten(Column(l, 1))| == |l| * 3 && |Flatten(Column(l, 2))| == |l|
  {
    FlattenLength(Column(l, 0), 6);
    FlattenLength(Column(l, 1), 3);
    FlattenLength(Column(l, 2), 1);
  }

  predicate LayoutOk(l: seq<Response>, mid: seq<byte>, clock: seq<byte>, rssi: bool) {
    |l| < 0x100 && ResponsesOk(l) && |mid| == (if rssi then |l| * 2 else |l| * 3) && |clock| == |l| * 2
  }

  lemma CodPlace(l: seq<Response>, mid: seq<byte>, clock: seq<byte>, rssi: bool, i: nat)
    requires LayoutOk(l, mid, clock, rssi) && i < |l|
    ensures var p, co := InquiryParams(l, mid, clock, rssi), CodBase(|l|, rssi) + i * 3;
            co + 3 <= |p| && Cod(p, co) == Cod(l[i].cod, 0)
  {
    ColumnLengths(l);
    CodAt(l, mid, clock, rssi, i);
  }

  lemma RssiPlace(l: seq<Response>, mid: seq<byte>, clock: seq<byte>, i: nat)
    requires LayoutOk(l, mid, clock, true) && i < |l|
    ensures var p, ro := InquiryParams(l, mid, clock, true), 1 + |l| * 13 + i;
            ro + 1 <= |p| && Signed(p[ro]) == l[i].rssi
  {
    ColumnLengths(l);
    RssiAt(l, mid, clock, i);
  }

  lemma InquiryEntryAt(l: seq<Response>, mid: seq<byte>, clock: seq<byte>, rssi: bool, i: nat)
    requires LayoutOk(l, mid, clock, rssi) && i < |l|
    ensures var p := InquiryParams(l, mid, clock, rssi);
            InquiryFits(p, |l|, i, rssi) && InquiryEntry(p, |l|, i, rssi) == AsSighting(l[i], rssi)
  {
    AddrAt(l, mid, clock, rssi, i);
    CodPlace(l, mid, clock, rssi, i);
    if rssi {
      RssiPlace(l, mid, clock, i);
    }
  }

  /** The groupings of the columns that the three lemmas below look at. */
  lemma Regroup(n: seq<byte>, a: seq<byte>, m: seq<byte>, c: seq<byte>, k: seq<byte>, r: seq<byte>)
    ensures n + a + m + c + k + r == n + a + (m + c + k + r)
    ensures n + a + m + c + k + r == (n + a + m) + c + (k + r)
    ensures n + a + m + c + k + r == (n + a + m + c + k) + r + []
  {
  }

  lemma AddrAt(l: seq<Response>, mid: seq<byte>, clock: seq<byte>, rssi: bool, i: nat)
    requires |l| < 0x100 && ResponsesOk(l) && i < |l|
    ensures 7 + i * 6 <= |InquiryParams(l, mid, clock, rssi)|
    ensures InquiryParams(l, mid, clock, rssi)[1 + i * 6..7 + i * 6] == l[i].addr
  {
    FlattenAt(Column(l, 0), 6, i);
    AfterCount(|l|, Flatten(Column(l, 0)), mid, Flatten(Column(l, 1)), clock, Strengths(l, rssi), i * 6, l[i].addr);
  }

  lemma AfterCount(
    count: byte, a: seq<byte>, mid: seq<byte>, c: seq<byte>, clock: seq<byte>, last: seq<byte>, at: nat, v: Addr)
    requires at + 6 <= |a| && a[at..at + 6] == v
    ensures ([count] + a + mid + c + clock + last)[1 + at..7 + at] == v
  {
    Within([count], a, mid + c + clock + last, at, 6);
    Regroup([count], a, mid, c, clock, last);
  }

  lemma CodAt(l: seq<Response>, mid: seq<byte>, clock: seq<byte>, rssi: bool, i: nat)
    requires |l| < 0x100 && ResponsesOk(l) && i < |l|
    ensures var p, co := InquiryParams(l, mid, clock, rssi), 1 + |Flatten(Column(l, 0))| + |mid| + i * 3;
            co + 3 <= |p| && Cod(p, co) == Cod(l[i].cod, 0)
  {
    var a, c, d := Flatten(Column(l, 0)), Flatten(Column(l, 1)), Strengths(l, rssi);
    FlattenAt(Column(l, 1), 3, i);
    CodIn([|l|] + a + mid, c, clock + d, i, l[i].cod);
    Regroup([|l|], a, mid, c, clock, d);
  }

  lemma CodIn(front: seq<byte>, c: seq<byte>, back: seq<byte>, i: nat, cod: seq<byte>)
    requires |cod| == 3 && i * 3 + 3 <= |c| && c[i * 3..i * 3 + 3] == cod
    ensures Cod(front + c + back, |front| + i * 3) == Cod(cod, 0)
  {
    Within(front, c, back, i * 3, 3);
    CodOfSlice(front + c + back, |front| + i * 3, cod);
  }

  lemma CodOfSlice(p: seq<byte>, at: nat, cod: seq<byte>)
    requires at + 3 <= |p| && |cod| == 3 && p[at..at + 3] == cod
    ensures Cod(p, at) == Cod(cod, 0)
  {
    assert p[at] == cod[0] && p[at + 1] == cod[1] && p[at + 2] == cod[2];
  }

  lemma RssiAt(l: seq<Response>, mid: seq<byte>, clock: seq<byte>, i: nat)
    requires |l| < 0x100 && ResponsesOk(l) && i < |l|
    ensures var p := InquiryParams(l, mid, clock, true);
            var ro := 1 + |Flatten(Column(l, 0))| + |mid| + |Flatten(Column(l, 1))| + |clock| + i;
            ro + 1 <= |p| && Signed(p[ro]) == l[i].rssi
  {
    var a, c, r := Flatten(Column(l, 0)), Flatten(Column(l, 1)), Flatten(Column(l, 2));
    StrengthOf(l, i);
    LastAt([|l|] + a + mid + c + clock, r, i);
    Regroup([|l|], a, mid, c, clock, r);
  }

  lemma StrengthOf(l: seq<Response>, i: nat)
    requires ResponsesOk(l) && i < |l|
    ensures i < |Flatten(Column(l, 2))| && Signed(Flatten(Column(l, 2))[i]) == l[i].rssi
  {
    var r := Flatten(Column(l, 2));
    FlattenAt(Column(l, 2), 1, i);
    assert r[i * 1..i * 1 + 1] == Column(l, 2)[i];
    assert r[i] == r[i * 1..i * 1 + 1][0];
  }

  lemma LastAt(front: seq<byte>, r: seq<byte>, i: nat)
    requires i < |r|
    ensures (front + r + [])[|front| + i] == r[i]
  {
  }

  lemma Within(front: seq<byte>, s: seq<byte>, back: seq<byte>, at: nat, n: nat)
    requires at + n <= |s|
    ensures (front + s + back)[|front| + at..|front| + at + n] == s[at..at + n]
    ensures forall k | at <= k < at + n :: (front + s + back)[|front| + k] == s[k]
  {
  }

  // ---------------------------------------------------------------------------
  // Over whole runs
  // ---------------------------------------------------------------------------

  predicate UniqueKeys(devs: seq<Dev>) {
    forall i, j | 0 <= i < j < |devs| :: devs[i].key != devs[j].key
  }

  predicate NoRepeats(s: seq<Key>) {
    forall i, j | 0 <= i < j < |s| :: s[i] != s[j]
  }

  predicate IsHidKey(devs: seq<Dev>, key: Key) {
    exists i | 0 <= i < |devs| :: devs[i].key == key && devs[i].isHid
  }

  /** Bounded, unique keys, terminated names, and one callback for exactly the devices known to be HID. */
  ghost predicate Inv(c: Cache) {
    && |c.devs| <= 24 && UniqueKeys(c.devs)
    && (forall i | 0 <= i < |c.devs| :: Terminated(c.devs[i].name))
    && NoRepeats(c.fired)
    && (forall key: Key :: key in c.fired <==> IsHidKey(c.devs, key))
  }

  /** Nothing known is lost: devices keep their place and key, and HID status never falls back. */
  predicate Extends(c: Cache, c': Cache) {
    && |c.devs| <= |c'.devs| && c.fired <= c'.fired
    && forall i | 0 <= i < |c.devs| :: c'.devs[i].key == c.devs[i].key && (c.devs[i].isHid ==> c'.devs[i].isHid)
  }

  lemma ObserveKeepsNameTerminated(d: Dev, s: Sighting)
    requires Terminated(d.name)
    ensures Terminated(Observe(d, s).name)
  {
    match s
    case LeReport(addrType, advType, rssi, ad) =>
      ParseKeepsNameTerminated(d.(addrType := addrType, advType := advType, rssi := rssi), ad);
    case Inquiry(rssi, cod, eir) =>
      var e := d.(addrType := 0, advType := 0xFF, rssi := if rssi != 0 then rssi else d.rssi, cod := cod);
      ParseKeepsNameTerminated(ClassOf(e, cod), eir);
  }

  /** The callback fires on a sighting exactly when it is the one that first makes the device HID. */
  lemma SeeKeepsInv(c: Cache, addr: Addr, s: Sighting)
    requires NamesSized(c.devs) && Inv(c)
    ensures Inv(See(c, addr, s)) && Extends(c, See(c, addr, s))
    ensures var key := Key(addr, s.LeReport?);
            See(c, addr, s).fired
            == c.fired + if IsHidKey(See(c, addr, s).devs, key) && !IsHidKey(c.devs, key) then [key] else []
  {
    var key := Key(addr, s.LeReport?);
    var i := FindDev(c.devs, key);
    var c' := See(c, addr, s);
    if i < |c.devs| || |c.devs| < CAPACITY {
      var was := if i < |c.devs| then c.devs[i] else Blank(key);
      assert i == |c.devs| ==> was.name[0] == 0;
      ObserveKeepsNameTerminated(was, s);
      assert c'.devs[i] == Observe(was, s);
      forall k | 0 <= k < |c'.devs| && k != i
        ensures k < |c.devs| && c'.devs[k] == c.devs[k] && c.devs[k].key != key
      {
      }
      assert IsHidKey(c.devs, key) <==> was.isHid;
      assert IsHidKey(c'.devs, key) <==> c'.devs[i].isHid;
      forall other: Key | other != key
        ensures IsHidKey(c'.devs, other) <==> IsHidKey(c.devs, other)
      {
        if IsHidKey(c.devs, other) {
          var k :| 0 <= k < |c.devs| && c.devs[k].key == other && c.devs[k].isHid;
          assert c'.devs[k] == c.devs[k];
        }
      }
    } else {
      assert c.fired + [] == c.fired;
    }
  }

  lemma {:induction false} SeeAllKeepsInv(c: Cache, l: seq<(Addr, Sighting)>)
    requires NamesSized(c.devs) && Inv(c)
    ensures Inv(SeeAll(c, l)) && Extends(c, SeeAll(c, l))
    decreases |l|
  {
    if l != [] {
      SeeKeepsInv(c, l[0].0, l[0].1);
      SeeAllKeepsInv(See(c, l[0].0, l[0].1), l[1..]);
    }
  }

  lemma RenameKeepsInv(c: Cache, p: seq<byte>)
    requires NamesSized(c.devs) && Inv(c)
    ensures NamesSized(Rename(c, p).devs) && Inv(Rename(c, p)) && Extends(c, Rename(c, p))
  {
    var c' := Rename(c, p);
    if |p| >= 7 {
      var i := FindDev(c.devs, Key(p[1..7], false));
      if i < |c.devs| {
        SetNameTerminates(c.devs[i].name, p[7..7 + UpToNul(p[7..])]);
      }
    }
    SameHidKeys(c.devs, c'.devs);
  }

  lemma SameHidKeys(a: seq<Dev>, b: seq<Dev>)
    requires |a| == |b| && forall i | 0 <= i < |a| :: a[i].key == b[i].key && a[i].isHid == b[i].isHid
    ensures forall key: Key :: IsHidKey(a, key) <==> IsHidKey(b, key)
  {
    forall key: Key
      ensures IsHidKey(a, key) <==> IsHidKey(b, key)
    {
      if IsHidKey(a, key) {
        var k :| 0 <= k < |a| && a[k].key == key && a[k].isHid;
        assert b[k].key == key && b[k].isHid;
      }
      if IsHidKey(b, key) {
        var k :| 0 <= k < |b| && b[k].key == key && b[k].isHid;
        assert a[k].key == key && a[k].isHid;
      }
    }
  }

  lemma StepKeepsInv(c: Cache, e: Event)
    requires NamesSized(c.devs) && Inv(c)
    ensures Inv(Step(c, e)) && (!e.Clear? ==> Extends(c, Step(c, e)))
  {
    if e.RemoteName? {
      RenameKeepsInv(c, e.p);
    } else if !e.Clear? {
      SeeAllKeepsInv(c, Decode(e));
    }
  }

  /**
   Main theorem. Over every run of LE and classic results, names and clears, the
   cache is a bounded map in insertion order with unique keys and terminated names,
   and since the last clear the HID-found callback has been made exactly once for
   each device known to be HID.
   */
  lemma {:induction false} CacheStaysSound(evs: seq<Event>)
    ensures Inv(Run(evs))
  {
    if evs != [] {
      CacheStaysSound(evs[..|evs| - 1]);
      StepKeepsInv(Run(evs[..|evs| - 1]), evs[|evs| - 1]);
    }
  }

  /** Between clears nothing known is lost and no HID verdict is withdrawn. */
  lemma {:induction false} KnowledgeGrows(before: seq<Event>, after: seq<Event>)
    requires forall i | 0 <= i < |after| :: !after[i].Clear?
    ensures Extends(Run(before), Run(before + after))
  {
    if after == [] {
      assert before + after == before;
    } else {
      var front := after[..|after| - 1];
      assert (before + after)[..|before + after| - 1] == before + front;
      KnowledgeGrows(before, front);
      CacheStaysSound(before + front);
      StepKeepsInv(Run(before + front), after[|after| - 1]);
    }
  }
}
