/**
 A conforming GATT peer: an ordered attribute table that answers each request with
 a non-empty leading part of the matching attributes, cut wherever it likes, or
 with "attribute not found"; and what the client's parsers make of such answers.
 Opcodes, error codes and UUIDs are the numbers of the Core Specification (Vol 3 Part F
 section 3.4 and Part G section 3) and of the HID service, not the client's names for them.
 */
module GattPeer {
  import opened Bytes
  import opened GattSession

  datatype Uuid = Short(v: u16) | Long(octets: Octets)

  datatype Attr =
    | Service(end: u16, uuid: Uuid)
    | Characteristic(props: byte, value: u16, uuid: Uuid)
    | Other(uuid: Uuid)

  datatype Entry = Entry(handle: u16, attr: Attr)

  type Table = seq<Entry>

  predicate UuidOk(u: Uuid) {
    u.Long? ==> |u.octets| == 16
  }

  function TypeOf(a: Attr): Uuid {
    match a
    case Service(_, _) => Short(0x2800)
    case Characteristic(_, _, _) => Short(0x2803)
    case Other(u) => u
  }

  predicate Ascending(t: Table) {
    && (forall i | 0 <= i < |t| :: 1 <= t[i].handle)
    && (forall i, j | 0 <= i < j < |t| :: t[i].handle < t[j].handle)
  }

  /** Entries of one kind, in table order. */
  function Pick(t: Table, p: Attr -> bool): Table {
    if t == [] then []
    else Pick(t[..|t| - 1], p) + if p(t[|t| - 1].attr) then [t[|t| - 1]] else []
  }

  const IS_SERVICE: Attr -> bool := (a: Attr) => a.Service?
  const IS_CHARACTERISTIC: Attr -> bool := (a: Attr) => a.Characteristic?

  function Services(t: Table): Table { Pick(t, IS_SERVICE) }
  function Chars(t: Table): Table { Pick(t, IS_CHARACTERISTIC) }

  /** How many leading entries of an ascending table lie below a handle. */
  function Below(t: Table, x: int): (n: nat)
    ensures n <= |t|
  {
    if t == [] then 0
    else if t[|t| - 1].handle < x then |t| else Below(t[..|t| - 1], x)
  }

  lemma {:induction false} BelowSplits(t: Table, x: int)
    requires Ascending(t)
    ensures forall i | 0 <= i < |t| :: i < Below(t, x) <==> t[i].handle < x
  {
    if t != [] && t[|t| - 1].handle >= x {
      BelowSplits(t[..|t| - 1], x);
    }
  }

  /** Entries with lo <= handle <= hi. */
  function Range(t: Table, lo: int, hi: int): Table
    requires Ascending(t) && lo <= hi + 1
  {
    BelowSplits(t, lo);
    BelowSplits(t, hi + 1);
    BelowMonotone(t, lo, hi + 1);
    t[Below(t, lo)..Below(t, hi + 1)]
  }

  lemma RangeMembers(t: Table, lo: int, hi: int, i: nat)
    requires Ascending(t) && lo <= hi + 1 && i < |Range(t, lo, hi)|
    ensures Range(t, lo, hi)[i] in t && lo <= Range(t, lo, hi)[i].handle <= hi
  {
    BelowSplits(t, lo);
    BelowSplits(t, hi + 1);
    BelowMonotone(t, lo, hi + 1);
    assert Range(t, lo, hi)[i] == t[Below(t, lo) + i];
  }

  lemma BelowMonotone(t: Table, x: int, y: int)
    requires Ascending(t) && x <= y
    ensures Below(t, x) <= Below(t, y)
  {
    BelowSplits(t, x);
    BelowSplits(t, y);
  }

  lemma BelowIs(t: Table, x: int, n: nat)
    requires Ascending(t) && n <= |t|
    requires n > 0 ==> t[n - 1].handle < x
    requires n < |t| ==> x <= t[n].handle
    ensures Below(t, x) == n
  {
    BelowSplits(t, x);
  }

  lemma {:induction false} PickSelects(t: Table, p: Attr -> bool, e: Entry)
    ensures e in Pick(t, p) <==> e in t && p(e.attr)
  {
    if t != [] {
      PickSelects(t[..|t| - 1], p, e);
      assert t == t[..|t| - 1] + [t[|t| - 1]];
    }
  }

  lemma {:induction false} PickIsOrdered(t: Table, p: Attr -> bool)
    requires Ascending(t)
    ensures Ascending(Pick(t, p))
  {
    if t != [] {
      var front := t[..|t| - 1];
      PickIsOrdered(front, p);
      forall i | 0 <= i < |Pick(front, p)|
        ensures Pick(front, p)[i].handle < t[|t| - 1].handle
      {
        PickSelects(front, p, Pick(front, p)[i]);
        var k :| 0 <= k < |front| && front[k] == Pick(front, p)[i];
      }
    }
  }

  // ---------------------------------------------------------------------------
  // The peer
  // ---------------------------------------------------------------------------

  function UuidOctets(u: Uuid): Octets {
    match u case Short(v) => Le16(v) case Long(o) => o
  }

  function Encode(e: Entry): Octets {
    match e.attr
    case Service(end, u) => Le16(e.handle) + Le16(end) + UuidOctets(u)
    case Characteristic(props, value, u) => Le16(e.handle) + [props] + Le16(value) + UuidOctets(u)
    case Other(u) => Le16(e.handle) + UuidOctets(u)
  }

  function EncodeInfo(e: Entry): Octets {
    Le16(e.handle) + UuidOctets(TypeOf(e.attr))
  }

  /** A list response: one size or format byte, then the entries, which all have one UUID size. */
  predicate OneSize(us: seq<Uuid>) {
    forall i | 0 <= i < |us| :: us[i].Short? == us[0].Short?
  }

  function EntryOctets(es: Table, info: bool): seq<Octets> {
    seq(|es|, i requires 0 <= i < |es| => if info then EncodeInfo(es[i]) else Encode(es[i]))
  }

  function UuidsOf(es: Table, info: bool): seq<Uuid> {
    seq(|es|, i requires 0 <= i < |es| => if info then TypeOf(es[i].attr) else es[i].attr.uuid)
  }

  function ListRsp(op: byte, tag: byte, es: Table, info: bool): Octets {
    [op, tag] + Flatten(EntryOctets(es, info))
  }

  function ErrorFor(op: byte, handle: u16, code: byte): Octets {
    [0x01, op] + Le16(handle) + [code]
  }

  /** The peer may send any non-empty leading part of the matches that has one UUID size. */
  predicate ListAnswer(matches: Table, req: byte, op: byte, start: u16, rsp: Octets, info: bool, tag: bool -> byte) {
    if matches == [] then rsp == ErrorFor(req, start, 0x0A)
    else exists n | 0 < n <= |matches| ::
      && OneSize(UuidsOf(matches[..n], info))
      && rsp == ListRsp(op, tag(UuidsOf(matches[..n], info)[0].Short?), matches[..n], info)
  }

  const GROUP_TAG: bool -> byte := short => if short then 6 else 20
  const TYPE_TAG: bool -> byte := short => if short then 7 else 21
  const INFO_TAG: bool -> byte := short => if short then 1 else 2

  /** Whether a conforming peer with table t may answer req with rsp. */
  predicate PeerMay(t: Table, req: Octets, rsp: Octets)
    requires Ascending(t)
  {
    PickIsOrdered(t, IS_SERVICE);
    PickIsOrdered(t, IS_CHARACTERISTIC);
    if |req| == 7 && req[0] == 0x10 && Rd16(req, 5) == 0x2800 && Rd16(req, 1) <= Rd16(req, 3) then
      ListAnswer(Range(Services(t), Rd16(req, 1), Rd16(req, 3)), 0x10, 0x11, Rd16(req, 1), rsp, false,
                 GROUP_TAG)
    else if |req| == 7 && req[0] == 0x08 && Rd16(req, 5) == 0x2803 && Rd16(req, 1) <= Rd16(req, 3) then
      ListAnswer(Range(Chars(t), Rd16(req, 1), Rd16(req, 3)), 0x08, 0x09, Rd16(req, 1), rsp, false, TYPE_TAG)
    else if |req| == 5 && req[0] == 0x04 && Rd16(req, 1) <= Rd16(req, 3) then
      ListAnswer(Range(t, Rd16(req, 1), Rd16(req, 3)), 0x04, 0x05, Rd16(req, 1), rsp, true, INFO_TAG)
    else false
  }

  predicate IsHid(e: Entry) {
    e.attr.Service? && e.attr.uuid == Short(0x1812)
  }

  predicate NoHid(t: Table) {
    forall i | 0 <= i < |t| :: !IsHid(t[i])
  }

  /** Ordered, services span disjoint ranges starting at themselves, and at most one is HID. */
  predicate Conforming(t: Table) {
    && Ascending(t)
    && (forall i | 0 <= i < |t| :: UuidOk(TypeOf(t[i].attr)) && UuidOk(t[i].attr.uuid))
    && (forall i | 0 <= i < |t| && t[i].attr.Service? :: t[i].handle <= t[i].attr.end)
    && (forall i, j | 0 <= i < j < |t| && t[i].attr.Service? && t[j].attr.Service? :: t[i].attr.end < t[j].handle)
    && (forall i, j | 0 <= i < j < |t| && IsHid(t[i]) :: !IsHid(t[j]))
  }

  // ---------------------------------------------------------------------------
  // What the table says
  // ---------------------------------------------------------------------------

  function ShortUuid(u: Uuid): Option<u16> {
    if u.Short? then Some(u.v) else None
  }

  predicate IsReportEntry(e: Entry) {
    && e.attr.Characteristic? && e.attr.uuid.Short?
    && e.attr.uuid.v in {0x2A4D, 0x2A22, 0x2A33} && e.attr.props / 0x10 % 2 == 1
  }

  /** A report as the client records it: boot reports tell a keyboard from a mouse. */
  function ReportEntry(value: u16, uuid: u16): Report {
    Report(value, 0, if uuid == 0x2A22 then Keyboard else if uuid == 0x2A33 then Mouse else Unknown, uuid != 0x2A4D)
  }

  function ReportsIn(cs: Table): seq<Report> {
    if cs == [] then []
    else
      var e := cs[|cs| - 1];
      ReportsIn(cs[..|cs| - 1]) + if IsReportEntry(e) then [ReportEntry(e.attr.value, e.attr.uuid.v)] else []
  }

  function ProtocolModeIn(cs: Table): u16 {
    if cs == [] then 0
    else
      var e := cs[|cs| - 1];
      if e.attr.Characteristic? && e.attr.uuid == Short(0x2A4E) then e.attr.value
      else ProtocolModeIn(cs[..|cs| - 1])
  }

  function CccdsIn(t: Table): seq<u16> {
    if t == [] then []
    else
      var e := t[|t| - 1];
      CccdsIn(t[..|t| - 1]) + if TypeOf(e.attr) == Short(0x2902) then [e.handle] else []
  }

  function Take<T>(s: seq<T>, n: nat): seq<T> {
    if |s| <= n then s else s[..n]
  }

  /** The characteristics of the service spanning [start, end]. */
  function CharsOf(t: Table, start: u16, end: int): Table
    requires Ascending(t) && start <= end + 1
  {
    PickIsOrdered(t, IS_CHARACTERISTIC);
    Range(Chars(t), start, end)
  }

  // ---------------------------------------------------------------------------
  // One response, parsed
  // ---------------------------------------------------------------------------

  function FoldServices(a: ServiceScan, es: Table): ServiceScan
    requires forall i | 0 <= i < |es| :: es[i].attr.Service?
    decreases |es|
  {
    if es == [] then a
    else FoldServices(TakeService(a, es[0].handle, es[0].attr.end, ShortUuid(es[0].attr.uuid)), es[1..])
  }

  function FoldChars(a: CharScan, es: Table): CharScan
    requires forall i | 0 <= i < |es| :: es[i].attr.Characteristic?
    decreases |es|
  {
    if es == [] then a
    else FoldChars(TakeChar(a, es[0].handle, es[0].attr.props, es[0].attr.value, ShortUuid(es[0].attr.uuid)), es[1..])
  }

  function FoldInfos(a: InfoScan, es: Table): InfoScan
    decreases |es|
  {
    if es == [] then a else FoldInfos(TakeInfo(a, es[0].handle, ShortUuid(TypeOf(es[0].attr))), es[1..])
  }

  lemma {:induction false} EntriesOfFlatten(ss: seq<Octets>, size: nat)
    requires size > 0 && forall i | 0 <= i < |ss| :: |ss[i]| == size
    ensures Entries(Flatten(ss), size) == ss
  {
    if ss != [] {
      EntriesOfFlatten(ss[1..], size);
      assert Flatten(ss)[..size] == ss[0] && Flatten(ss)[size..] == Flatten(ss[1..]);
    }
  }

  lemma EncodedService(e: Entry)
    requires e.attr.Service? && UuidOk(e.attr.uuid)
    ensures var o := Encode(e);
            && |o| == GROUP_TAG(e.attr.uuid.Short?)
            && Rd16(o, 0) == e.handle && Rd16(o, 2) == e.attr.end
            && (|o| == 6 ==> Rd16(o, 4) == e.attr.uuid.v)
  {
  }

  lemma EncodedChar(e: Entry)
    requires e.attr.Characteristic? && UuidOk(e.attr.uuid)
    ensures var o := Encode(e);
            && |o| == TYPE_TAG(e.attr.uuid.Short?)
            && Rd16(o, 0) == e.handle && o[2] == e.attr.props && Rd16(o, 3) == e.attr.value
            && (|o| == 7 ==> Rd16(o, 5) == e.attr.uuid.v)
  {
  }

  lemma EncodedInfo(e: Entry)
    requires UuidOk(TypeOf(e.attr))
    ensures var o := EncodeInfo(e);
            && |o| == InfoSize(INFO_TAG(TypeOf(e.attr).Short?))
            && Rd16(o, 0) == e.handle
            && (|o| == 4 ==> Rd16(o, 2) == TypeOf(e.attr).v)
  {
  }

  lemma {:induction false} ScanEncodedServices(a: ServiceScan, es: Table)
    requires forall i | 0 <= i < |es| :: es[i].attr.Service? && UuidOk(es[i].attr.uuid)
    ensures forall i | 0 <= i < |es| :: |EntryOctets(es, false)[i]| >= 4
    ensures ScanServices(a, EntryOctets(es, false)) == FoldServices(a, es)
    decreases |es|
  {
    forall i | 0 <= i < |es| ensures |EntryOctets(es, false)[i]| >= 4 { EncodedService(es[i]); }
    if es != [] {
      EncodedService(es[0]);
      assert EntryOctets(es, false)[1..] == EntryOctets(es[1..], false);
      ScanEncodedServices(TakeService(a, es[0].handle, es[0].attr.end, ShortUuid(es[0].attr.uuid)), es[1..]);
    }
  }

  lemma {:induction false} ScanEncodedChars(a: CharScan, es: Table)
    requires forall i | 0 <= i < |es| :: es[i].attr.Characteristic? && UuidOk(es[i].attr.uuid)
    ensures forall i | 0 <= i < |es| :: |EntryOctets(es, false)[i]| >= 5
    ensures ScanChars(a, EntryOctets(es, false)) == FoldChars(a, es)
    decreases |es|
  {
    forall i | 0 <= i < |es| ensures |EntryOctets(es, false)[i]| >= 5 { EncodedChar(es[i]); }
    if es != [] {
      EncodedChar(es[0]);
      assert EntryOctets(es, false)[1..] == EntryOctets(es[1..], false);
      ScanEncodedChars(TakeChar(a, es[0].handle, es[0].attr.props, es[0].attr.value, ShortUuid(es[0].attr.uuid)),
                       es[1..]);
    }
  }

  lemma {:induction false} ScanEncodedInfos(a: InfoScan, es: Table)
    requires forall i | 0 <= i < |es| :: UuidOk(TypeOf(es[i].attr))
    ensures forall i | 0 <= i < |es| :: |EntryOctets(es, true)[i]| >= 4
    ensures ScanInfos(a, EntryOctets(es, true)) == FoldInfos(a, es)
    decreases |es|
  {
    forall i | 0 <= i < |es| ensures |EntryOctets(es, true)[i]| >= 4 { EncodedInfo(es[i]); }
    if es != [] {
      EncodedInfo(es[0]);
      assert EntryOctets(es, true)[1..] == EntryOctets(es[1..], true);
      ScanEncodedInfos(TakeInfo(a, es[0].handle, ShortUuid(TypeOf(es[0].attr))), es[1..]);
    }
  }

  // ---------------------------------------------------------------------------
  // What the folds learn
  // ---------------------------------------------------------------------------

  lemma {:induction false} FoldServicesLearns(a: ServiceScan, es: Table)
    requires es != [] && forall i | 0 <= i < |es| :: es[i].attr.Service?
    requires forall i, j | 0 <= i < j < |es| && IsHid(es[i]) :: !IsHid(es[j])
    ensures FoldServices(a, es).last == es[|es| - 1].attr.end
    ensures forall i | 0 <= i < |es| && IsHid(es[i]) ::
              FoldServices(a, es).hidStart == es[i].handle && FoldServices(a, es).hidEnd == es[i].attr.end
    ensures (forall i | 0 <= i < |es| :: !IsHid(es[i])) ==>
              FoldServices(a, es).hidStart == a.hidStart && FoldServices(a, es).hidEnd == a.hidEnd
    decreases |es|
  {
    var b := TakeService(a, es[0].handle, es[0].attr.end, ShortUuid(es[0].attr.uuid));
    if |es| == 1 {
      assert FoldServices(b, []) == b;
    } else {
      FoldServicesLearns(b, es[1..]);
      forall i | 0 <= i < |es| && IsHid(es[i])
        ensures FoldServices(a, es).hidStart == es[i].handle && FoldServices(a, es).hidEnd == es[i].attr.end
      {
        if i > 0 {
          assert IsHid(es[1..][i - 1]);
        }
      }
    }
  }

  /** What the characteristic phase holds after seeing the declarations `seen`. */
  predicate CharsLearnt(a: CharScan, seen: Table) {
    a.reports == Take(ReportsIn(seen), 8) && a.protoMode == ProtocolModeIn(seen)
  }

  lemma TakeCharLearns(a: CharScan, seen: Table, e: Entry)
    requires CharsLearnt(a, seen) && e.attr.Characteristic?
    ensures CharsLearnt(TakeChar(a, e.handle, e.attr.props, e.attr.value, ShortUuid(e.attr.uuid)), seen + [e])
  {
    var all := seen + [e];
    assert all[..|all| - 1] == seen && all[|all| - 1] == e;
  }

  lemma {:induction false} FoldCharsLearns(a: CharScan, seen: Table, es: Table)
    requires CharsLearnt(a, seen)
    requires forall i | 0 <= i < |es| :: es[i].attr.Characteristic?
    ensures CharsLearnt(FoldChars(a, es), seen + es)
    ensures es != [] ==> FoldChars(a, es).last == es[|es| - 1].handle
    decreases |es|
  {
    if es == [] {
      assert seen + es == seen;
    } else {
      var e := es[0];
      var b := TakeChar(a, e.handle, e.attr.props, e.attr.value, ShortUuid(e.attr.uuid));
      TakeCharLearns(a, seen, e);
      FoldCharsLearns(b, seen + [e], es[1..]);
      assert (seen + [e]) + es[1..] == seen + es;
      if |es| == 1 {
        assert FoldChars(b, []) == b;
      }
    }
  }

  predicate InfosLearnt(a: InfoScan, seen: Table) {
    a.cccds == Take(CccdsIn(seen), 8)
  }

  lemma {:induction false} FoldInfosLearns(a: InfoScan, seen: Table, es: Table)
    requires InfosLearnt(a, seen)
    ensures InfosLearnt(FoldInfos(a, es), seen + es)
    ensures es != [] ==> FoldInfos(a, es).last == es[|es| - 1].handle
    decreases |es|
  {
    if es == [] {
      assert seen + es == seen;
    } else {
      var e := es[0];
      var b := TakeInfo(a, e.handle, ShortUuid(TypeOf(e.attr)));
      assert (seen + [e])[..|seen + [e]| - 1] == seen;
      assert InfosLearnt(b, seen + [e]);
      FoldInfosLearns(b, seen + [e], es[1..]);
      assert (seen + [e]) + es[1..] == seen + es;
      if |es| == 1 {
        assert FoldInfos(b, []) == b;
      }
    }
  }

  // ---------------------------------------------------------------------------
  // Facts about conforming tables and their answers
  // ---------------------------------------------------------------------------

  /** An ordered list of services with disjoint ranges, at most one of them HID. */
  predicate ServicesOk(ss: Table) {
    && Ascending(ss)
    && (forall i | 0 <= i < |ss| :: ss[i].attr.Service? && UuidOk(ss[i].attr.uuid) && ss[i].handle <= ss[i].attr.end)
    && (forall i, j | 0 <= i < j < |ss| :: ss[i].attr.end < ss[j].handle)
    && (forall i, j | 0 <= i < j < |ss| && IsHid(ss[i]) :: !IsHid(ss[j]))
  }

  lemma ServicesAreInTable(t: Table)
    requires Conforming(t)
    ensures forall i | 0 <= i < |Services(t)| :: Services(t)[i] in t && Services(t)[i].attr.Service?
    ensures Ascending(Services(t))
  {
    var ss := Services(t);
    PickIsOrdered(t, IS_SERVICE);
    forall i | 0 <= i < |ss|
      ensures ss[i] in t && ss[i].attr.Service?
    {
      PickSelects(t, IS_SERVICE, ss[i]);
    }
  }

  lemma ServicesAreApart(t: Table, a: Entry, b: Entry)
    requires Conforming(t) && a in t && b in t && a.attr.Service? && b.attr.Service? && a.handle < b.handle
    ensures a.attr.end < b.handle && (IsHid(a) ==> !IsHid(b))
  {
    var k :| 0 <= k < |t| && t[k] == a;
    var l :| 0 <= l < |t| && t[l] == b;
    assert k < l;
  }

  lemma HidIsListed(t: Table)
    requires Conforming(t)
    ensures NoHid(t) <==> forall i | 0 <= i < |Services(t)| :: !IsHid(Services(t)[i])
  {
    var ss := Services(t);
    ServicesAreInTable(t);
    forall i | 0 <= i < |t| && IsHid(t[i])
      ensures exists j | 0 <= j < |ss| :: IsHid(ss[j])
    {
      PickSelects(t, IS_SERVICE, t[i]);
      var j :| 0 <= j < |ss| && ss[j] == t[i];
    }
  }

  lemma ServicesConform(t: Table)
    requires Conforming(t)
    ensures ServicesOk(Services(t))
    ensures forall i | 0 <= i < |Services(t)| :: Services(t)[i] in t
    ensures NoHid(t) <==> forall i | 0 <= i < |Services(t)| :: !IsHid(Services(t)[i])
  {
    var ss := Services(t);
    ServicesAreInTable(t);
    HidIsListed(t);
    forall i, j | 0 <= i < j < |ss|
      ensures ss[i].attr.end < ss[j].handle && (IsHid(ss[i]) ==> !IsHid(ss[j]))
    {
      ServicesAreApart(t, ss[i], ss[j]);
    }
  }

  lemma CharsConform(t: Table)
    requires Conforming(t)
    ensures var cs := Chars(t);
            Ascending(cs) && forall i | 0 <= i < |cs| :: cs[i].attr.Characteristic? && UuidOk(cs[i].attr.uuid)
  {
    PickIsOrdered(t, IS_CHARACTERISTIC);
    forall i | 0 <= i < |Chars(t)|
      ensures Chars(t)[i] in t && Chars(t)[i].attr.Characteristic?
    {
      PickSelects(t, IS_CHARACTERISTIC, Chars(t)[i]);
    }
  }

  /** A leading part of what lies at or above `start` is what lies up to its last handle. */
  lemma LeadingPart(t: Table, lo: int, start: int, hi: int, n: nat)
    requires Ascending(t) && lo <= start <= hi + 1 && 0 < n <= |Range(t, start, hi)|
    ensures var last := Range(t, start, hi)[n - 1].handle;
            && start <= last <= hi
            && Range(t, lo, last) == Range(t, lo, start - 1) + Range(t, start, hi)[..n]
  {
    BelowSplits(t, lo);
    BelowSplits(t, start);
    BelowSplits(t, hi + 1);
    BelowMonotone(t, lo, start);
    BelowMonotone(t, start, hi + 1);
    var b := Below(t, start);
    var last: int := t[b + n - 1].handle;
    assert Range(t, start, hi)[n - 1] == t[b + n - 1];
    BelowIs(t, last + 1, b + n);
  }

  /** If nothing lies in [start, hi], everything up to hi lies below start. */
  lemma NothingMore(t: Table, lo: int, start: int, hi: int)
    requires Ascending(t) && lo <= start <= hi + 1 && Range(t, start, hi) == []
    ensures Range(t, lo, hi) == Range(t, lo, start - 1)
  {
    BelowMonotone(t, lo, start);
    BelowMonotone(t, start, hi + 1);
  }

  /** The parser sees exactly the entries the peer put in a list response. */
  lemma ParsedServices(a: ServiceScan, es: Table, rsp: Octets)
    requires es != [] && OneSize(UuidsOf(es, false))
    requires forall i | 0 <= i < |es| :: es[i].attr.Service? && UuidOk(es[i].attr.uuid)
    requires rsp == ListRsp(0x11, GROUP_TAG(UuidsOf(es, false)[0].Short?), es, false)
    ensures |rsp| >= 2 && rsp[0] == 0x11 && rsp[1] >= 4
    ensures ScanServices(a, Entries(rsp[2..], rsp[1])) == FoldServices(a, es)
  {
    forall i | 0 <= i < |es| ensures |EntryOctets(es, false)[i]| == rsp[1] {
      EncodedService(es[i]);
      assert UuidsOf(es, false)[i].Short? == UuidsOf(es, false)[0].Short?;
    }
    EntriesOfFlatten(EntryOctets(es, false), rsp[1]);
    assert rsp[2..] == Flatten(EntryOctets(es, false));
    ScanEncodedServices(a, es);
  }

  lemma ParsedChars(a: CharScan, es: Table, rsp: Octets)
    requires es != [] && OneSize(UuidsOf(es, false))
    requires forall i | 0 <= i < |es| :: es[i].attr.Characteristic? && UuidOk(es[i].attr.uuid)
    requires rsp == ListRsp(0x09, TYPE_TAG(UuidsOf(es, false)[0].Short?), es, false)
    ensures |rsp| >= 2 && rsp[0] == 0x09 && rsp[1] >= 5
    ensures ScanChars(a, Entries(rsp[2..], rsp[1])) == FoldChars(a, es)
  {
    forall i | 0 <= i < |es| ensures |EntryOctets(es, false)[i]| == rsp[1] {
      EncodedChar(es[i]);
      assert UuidsOf(es, false)[i].Short? == UuidsOf(es, false)[0].Short?;
    }
    EntriesOfFlatten(EntryOctets(es, false), rsp[1]);
    assert rsp[2..] == Flatten(EntryOctets(es, false));
    ScanEncodedChars(a, es);
  }

  lemma ParsedInfos(a: InfoScan, es: Table, rsp: Octets)
    requires es != [] && OneSize(UuidsOf(es, true))
    requires forall i | 0 <= i < |es| :: UuidOk(TypeOf(es[i].attr))
    requires rsp == ListRsp(0x05, INFO_TAG(UuidsOf(es, true)[0].Short?), es, true)
    ensures |rsp| >= 2 && rsp[0] == 0x05
    ensures ScanInfos(a, Entries(rsp[2..], InfoSize(rsp[1]))) == FoldInfos(a, es)
  {
    forall i | 0 <= i < |es| ensures |EntryOctets(es, true)[i]| == InfoSize(rsp[1]) {
      EncodedInfo(es[i]);
      assert UuidsOf(es, true)[i].Short? == UuidsOf(es, true)[0].Short?;
    }
    EntriesOfFlatten(EntryOctets(es, true), InfoSize(rsp[1]));
    assert rsp[2..] == Flatten(EntryOctets(es, true));
    ScanEncodedInfos(a, es);
  }
}
