/**
 The ATT/GATT client's session as values: what each handler does to the session
 record, and which ATT requests it hands to the L2CAP layer. `sent` logs the
 requests in order, `replies` the error answers to a peer's own requests.
 */
module GattSession {
  import opened Bytes

  const ERROR_RSP: byte := 0x01
  const MTU_REQ: byte := 0x02
  const MTU_RSP: byte := 0x03
  const INFO_REQ: byte := 0x04
  const INFO_RSP: byte := 0x05
  const TYPE_REQ: byte := 0x08
  const TYPE_RSP: byte := 0x09
  const GROUP_REQ: byte := 0x10
  const GROUP_RSP: byte := 0x11
  const WRITE_REQ: byte := 0x12
  const WRITE_RSP: byte := 0x13
  const NOTIFICATION: byte := 0x1B

  const PRIMARY_SERVICE: u16 := 0x2800
  const CHARACTERISTIC: u16 := 0x2803
  const CCCD: u16 := 0x2902
  const HID_SERVICE: u16 := 0x1812
  const REPORT: u16 := 0x2A4D
  const BOOT_KEYBOARD: u16 := 0x2A22
  const BOOT_MOUSE: u16 := 0x2A33
  const PROTOCOL_MODE: u16 := 0x2A4E

  const INSUFFICIENT_AUTHENTICATION: byte := 0x05
  const NOT_FOUND: byte := 0x0A
  const INSUFFICIENT_ENCRYPTION: byte := 0x0F

  const MAX_REPORTS := 8
  const MAX_CCCDS := 8

  type Octets = seq<byte>

  datatype State = Idle | Mtu | Svc | Char | Desc | Enable | Ready | Failed

  datatype Kind = Unknown | Keyboard | Mouse

  datatype Report = Report(val: u16, cccd: u16, kind: Kind, isBoot: bool)

  datatype Session = Session(
    state: State,
    mtu: u16,
    hidStart: u16,
    hidEnd: u16,
    protoMode: u16,
    reports: seq<Report>,
    cccds: seq<u16>,
    enableIdx: int,
    lastReq: byte,
    pairingKicked: bool,
    attached: bool,
    sent: seq<Octets>,
    replies: seq<Octets>,
    pairings: nat)

  /** The zeroed record of a fresh slot, with the default ATT packet size. */
  const FRESH := Session(Idle, 23, 0, 0, 0, [], [], 0, 0, false, false, [], [], 0)

  // ---------------------------------------------------------------------------
  // Requests
  // ---------------------------------------------------------------------------

  const MTU_PDU: Octets := [MTU_REQ] + Le16(247)

  function GroupReq(start: u16): Octets {
    [GROUP_REQ] + Le16(start) + Le16(0xFFFF) + Le16(PRIMARY_SERVICE)
  }

  function TypeReq(start: u16, end: u16): Octets {
    [TYPE_REQ] + Le16(start) + Le16(end) + Le16(CHARACTERISTIC)
  }

  function InfoReq(start: u16, end: u16): Octets {
    [INFO_REQ] + Le16(start) + Le16(end)
  }

  function WriteReq(handle: u16, value: Octets): Octets {
    [WRITE_REQ] + Le16(handle) + value
  }

  function Send(s: Session, pdu: Octets): Session
    requires pdu != []
  {
    s.(lastReq := pdu[0], sent := s.sent + [pdu])
  }

  function SendMtu(s: Session): Session {
    Send(s.(state := Mtu), MTU_PDU)
  }

  function DiscoverServices(s: Session, start: u16): Session {
    Send(s.(state := Svc), GroupReq(start))
  }

  function DiscoverCharacteristics(s: Session, start: u16): Session {
    Send(s.(state := Char), TypeReq(start, s.hidEnd))
  }

  function DiscoverDescriptors(s: Session, start: u16): Session {
    Send(s.(state := Desc), InfoReq(start, s.hidEnd))
  }

  // ---------------------------------------------------------------------------
  // Entries of a list response: fixed-size slices of the body
  // ---------------------------------------------------------------------------

  function Entries(body: Octets, size: nat): (es: seq<Octets>)
    requires size > 0
    ensures forall i | 0 <= i < |es| :: |es[i]| == size
    decreases |body|
  {
    if |body| < size then [] else [body[..size]] + Entries(body[size..], size)
  }

  datatype ServiceScan = ServiceScan(hidStart: u16, hidEnd: u16, last: u16)

  function TakeService(a: ServiceScan, handle: u16, end: u16, uuid: Option<u16>): ServiceScan {
    if uuid == Some(HID_SERVICE) then ServiceScan(handle, end, end) else a.(last := end)
  }

  function ScanServices(a: ServiceScan, es: seq<Octets>): ServiceScan
    requires forall i | 0 <= i < |es| :: |es[i]| >= 4
    decreases |es|
  {
    if es == [] then a
    else
      var e := es[0];
      ScanServices(TakeService(a, Rd16(e, 0), Rd16(e, 2), if |e| == 6 then Some(Rd16(e, 4)) else None), es[1..])
  }

  datatype CharScan = CharScan(protoMode: u16, reports: seq<Report>, last: u16)

  predicate IsReportUuid(uuid: u16) {
    uuid == REPORT || uuid == BOOT_KEYBOARD || uuid == BOOT_MOUSE
  }

  predicate CanNotify(props: byte) {
    props / 0x10 % 2 == 1
  }

  function NewReport(val: u16, uuid: u16): Report {
    Report(val, 0,
           if uuid == BOOT_KEYBOARD then Keyboard else if uuid == BOOT_MOUSE then Mouse else Unknown,
           uuid != REPORT)
  }

  function TakeChar(a: CharScan, decl: u16, props: byte, val: u16, uuid: Option<u16>): CharScan {
    var b := a.(last := decl);
    if uuid == Some(PROTOCOL_MODE) then b.(protoMode := val)
    else if uuid.Some? && IsReportUuid(uuid.value) && CanNotify(props) && |a.reports| < MAX_REPORTS
    then b.(reports := a.reports + [NewReport(val, uuid.value)])
    else b
  }

  function ScanChars(a: CharScan, es: seq<Octets>): CharScan
    requires forall i | 0 <= i < |es| :: |es[i]| >= 5
    decreases |es|
  {
    if es == [] then a
    else
      var e := es[0];
      ScanChars(TakeChar(a, Rd16(e, 0), e[2], Rd16(e, 3), if |e| == 7 then Some(Rd16(e, 5)) else None), es[1..])
  }

  datatype InfoScan = InfoScan(cccds: seq<u16>, last: u16)

  function TakeInfo(a: InfoScan, handle: u16, uuid: Option<u16>): InfoScan {
    InfoScan(if uuid == Some(CCCD) && |a.cccds| < MAX_CCCDS then a.cccds + [handle] else a.cccds, handle)
  }

  function ScanInfos(a: InfoScan, es: seq<Octets>): InfoScan
    requires forall i | 0 <= i < |es| :: |es[i]| >= 4
    decreases |es|
  {
    if es == [] then a
    else
      var e := es[0];
      ScanInfos(TakeInfo(a, Rd16(e, 0), if |e| == 4 then Some(Rd16(e, 2)) else None), es[1..])
  }

  lemma EntriesAt(p: Octets, i: nat, size: nat)
    requires size > 0 && i <= |p|
    ensures i + size > |p| ==> Entries(p[i..], size) == []
    ensures i + size <= |p| ==> Entries(p[i..], size) == [p[i..i + size]] + Entries(p[i + size..], size)
  {
    if i + size <= |p| {
      assert p[i..][..size] == p[i..i + size] && p[i..][size..] == p[i + size..];
    }
  }

  /** One turn of the parsing loop at offset i is one step of the scan. */
  lemma ServiceAt(a: ServiceScan, p: Octets, i: nat, size: nat)
    requires size >= 4 && i + size <= |p|
    ensures ScanServices(a, Entries(p[i..], size))
            == ScanServices(TakeService(a, Rd16(p, i), Rd16(p, i + 2),
                                        if size == 6 then Some(Rd16(p, i + 4)) else None),
                            Entries(p[i + size..], size))
  {
    EntriesAt(p, i, size);
  }

  lemma CharAt(a: CharScan, p: Octets, i: nat, size: nat)
    requires size >= 5 && i + size <= |p|
    ensures ScanChars(a, Entries(p[i..], size))
            == ScanChars(TakeChar(a, Rd16(p, i), p[i + 2], Rd16(p, i + 3),
                                  if size == 7 then Some(Rd16(p, i + 5)) else None),
                         Entries(p[i + size..], size))
  {
    EntriesAt(p, i, size);
  }

  lemma InfoAt(a: InfoScan, p: Octets, i: nat, size: nat)
    requires size >= 4 && i + size <= |p|
    ensures ScanInfos(a, Entries(p[i..], size))
            == ScanInfos(TakeInfo(a, Rd16(p, i), if size == 4 then Some(Rd16(p, i + 2)) else None),
                         Entries(p[i + size..], size))
  {
    EntriesAt(p, i, size);
    var e, rest := p[i..i + size], Entries(p[i + size..], size);
    assert ([e] + rest)[0] == e && ([e] + rest)[1..] == rest;
    assert Rd16(e, 0) == Rd16(p, i) && Rd16(e, 2) == Rd16(p, i + 2);
  }

  // ---------------------------------------------------------------------------
  // Subscription
  // ---------------------------------------------------------------------------

  /** The report the inner loop of `map_cccds` settles on: the last one with the greatest value below `ch`. */
  function Owner(reports: seq<Report>, ch: u16): (best: int)
    ensures -1 <= best < |reports|
  {
    if reports == [] then -1
    else
      var n := |reports| - 1;
      var b := Owner(reports[..n], ch);
      if reports[n].val < ch && reports[n].val >= (if b < 0 then 0 else reports[b].val) then n else b
  }

  function MapCccds(reports: seq<Report>, cccds: seq<u16>): (r: seq<Report>)
    ensures |r| == |reports|
    decreases |cccds|
  {
    if cccds == [] then reports
    else
      var b := Owner(reports, cccds[0]);
      MapCccds(if b >= 0 && reports[b].cccd == 0 then reports[b := reports[b].(cccd := cccds[0])] else reports,
               cccds[1..])
  }

  predicate HaveBoot(reports: seq<Report>) {
    exists i | 0 <= i < |reports| :: reports[i].isBoot
  }

  function ModeWrite(s: Session): Octets {
    WriteReq(s.protoMode, [if HaveBoot(s.reports) then 0 else 1])
  }

  function Subscribe(r: Report): Octets {
    WriteReq(r.cccd, [1, 0])
  }

  function StartEnable(s: Session): Session {
    if s.protoMode != 0 then
      Send(s.(state := Enable, enableIdx := -1), ModeWrite(s))
    else if s.reports != [] && s.reports[0].cccd != 0 then
      Send(s.(state := Enable, enableIdx := 0), Subscribe(s.reports[0]))
    else s.(state := Ready, enableIdx := 0)
  }

  /** First report at or after i that has a CCCD. */
  function NextWithCccd(reports: seq<Report>, i: nat): (r: nat)
    requires i <= |reports|
    ensures i <= r <= |reports|
    ensures r < |reports| ==> reports[r].cccd != 0
    ensures forall k | i <= k < r :: reports[k].cccd == 0
    decreases |reports| - i
  {
    if i == |reports| || reports[i].cccd != 0 then i else NextWithCccd(reports, i + 1)
  }

  function EnableNext(s: Session): Session
    requires -1 <= s.enableIdx
  {
    if s.enableIdx >= |s.reports| then s.(state := Ready, attached := true)
    else
      var r := NextWithCccd(s.reports, s.enableIdx + 1);
      if r < |s.reports| then Send(s.(enableIdx := r), Subscribe(s.reports[r]))
      else s.(state := Ready, attached := true)
  }

  // ---------------------------------------------------------------------------
  // Responses
  // ---------------------------------------------------------------------------

  function OnGroup(s: Session, p: Octets): Session
    requires |p| >= 2 ==> p[1] >= 4
  {
    if |p| < 2 then s
    else
      var a := ScanServices(ServiceScan(s.hidStart, s.hidEnd, 0), Entries(p[2..], p[1]));
      var s' := s.(hidStart := a.hidStart, hidEnd := a.hidEnd);
      if a.hidStart != 0 then DiscoverCharacteristics(s'.(reports := []), a.hidStart)
      else if a.last < 0xFFFF then DiscoverServices(s', a.last + 1)
      else s'.(state := Failed)
  }

  /** What follows a parsed page of characteristics. */
  function AfterChars(s: Session, a: CharScan): Session {
    var s' := s.(protoMode := a.protoMode, reports := a.reports);
    if a.last != 0 && a.last < s.hidEnd then DiscoverCharacteristics(s', a.last + 1)
    else DiscoverDescriptors(s'.(cccds := []), s.hidStart)
  }

  function OnType(s: Session, p: Octets): Session
    requires |p| >= 2 ==> p[1] >= 5
  {
    if |p| < 2 then s
    else AfterChars(s, ScanChars(CharScan(s.protoMode, s.reports, 0), Entries(p[2..], p[1])))
  }

  function InfoSize(format: byte): nat {
    if format == 1 then 4 else 18
  }

  /** What follows a parsed page of descriptors. */
  function AfterInfos(s: Session, a: InfoScan): Session {
    var s' := s.(cccds := a.cccds);
    if a.last != 0 && a.last < s.hidEnd then DiscoverDescriptors(s', a.last + 1)
    else StartEnable(s'.(reports := MapCccds(s.reports, a.cccds)))
  }

  function OnInfo(s: Session, p: Octets): Session {
    if |p| < 2 then s
    else AfterInfos(s, ScanInfos(InfoScan(s.cccds, 0), Entries(p[2..], InfoSize(p[1]))))
  }

  function OnWrite(s: Session): Session
    requires -1 <= s.enableIdx
  {
    if s.state != Enable then s else EnableNext(s)
  }

  function OnError(s: Session, p: Octets): Session {
    if |p| < 5 then s
    else if p[4] == NOT_FOUND then
      match s.state
      case Svc =>
        if s.hidStart != 0 then DiscoverCharacteristics(s.(reports := []), s.hidStart) else s.(state := Failed)
      case Char => DiscoverDescriptors(s.(cccds := []), s.hidStart)
      case Desc => StartEnable(s.(reports := MapCccds(s.reports, s.cccds)))
      case _ => s
    else if p[4] == INSUFFICIENT_AUTHENTICATION || p[4] == INSUFFICIENT_ENCRYPTION then
      if s.pairingKicked then s else s.(pairingKicked := true, pairings := s.pairings + 1)
    else s.(state := Failed)
  }

  function OnMtu(s: Session, p: Octets): Session {
    var mtu := if |p| >= 3 then Min(Rd16(p, 1), 247) else s.mtu;
    DiscoverServices(s.(mtu := mtu), 1)
  }

  /** Entry sizes the list parsers step by; smaller ones would read outside the entry. */
  predicate Readable(p: Octets) {
    && p != []
    && (p[0] == GROUP_RSP && |p| >= 2 ==> p[1] >= 4)
    && (p[0] == TYPE_RSP && |p| >= 2 ==> p[1] >= 5)
  }

  /** A request from the peer: not a command, notification, indication or confirmation. */
  predicate NeedsRefusal(op: byte) {
    op / 0x40 % 2 == 0 && op != NOTIFICATION && op != 0x1D && op != 0x1E
  }

  function Refusal(p: Octets): Octets
    requires p != []
  {
    [ERROR_RSP, p[0]] + Le16(if |p| >= 3 then Rd16(p, 1) else 0) + [0x06]
  }

  function Input(s: Session, p: Octets): Session
    requires Readable(p) && -1 <= s.enableIdx
  {
    if p[0] == MTU_RSP then OnMtu(s, p)
    else if p[0] == GROUP_RSP then OnGroup(s, p)
    else if p[0] == TYPE_RSP then OnType(s, p)
    else if p[0] == INFO_RSP then OnInfo(s, p)
    else if p[0] == WRITE_RSP then OnWrite(s)
    else if p[0] == ERROR_RSP then OnError(s, p)
    else if p[0] == NOTIFICATION then s
    else if NeedsRefusal(p[0]) then s.(replies := s.replies + [Refusal(p)])
    else s
  }

  function Encrypted(s: Session, enabled: bool): Session {
    if enabled && (s.state == Enable || s.state == Failed) then StartEnable(s.(pairingKicked := false)) else s
  }
}
