/** Which protocol mode the client asks for, read off the peer's table. */
module GattBootMode {
  import opened Bytes
  import opened GattSession
  import opened GattPeer
  import opened GattDiscovery
  import opened GattSubscribe

  /** The notifying Report and Boot characteristics, in handle order. */
  function ReportEntries(cs: Table): Table {
    if cs == [] then []
    else
      var e := cs[|cs| - 1];
      ReportEntries(cs[..|cs| - 1]) + if IsReportEntry(e) then [e] else []
  }

  predicate IsBootEntry(e: Entry) {
    IsReportEntry(e) && e.attr.uuid.v in {BOOT_KEYBOARD, BOOT_MOUSE}
  }

  predicate Describes(r: Report, e: Entry) {
    && e.attr.Characteristic? && r.val == e.attr.value && (r.isBoot <==> IsBootEntry(e))
    && (r.kind == Keyboard <==> e.attr.uuid == Short(BOOT_KEYBOARD))
    && (r.kind == Mouse <==> e.attr.uuid == Short(BOOT_MOUSE))
  }

  lemma {:induction false} ReportsDescribeEntries(cs: Table)
    ensures |ReportsIn(cs)| == |ReportEntries(cs)|
    ensures forall i | 0 <= i < |ReportsIn(cs)| ::
              IsReportEntry(ReportEntries(cs)[i]) && Describes(ReportsIn(cs)[i], ReportEntries(cs)[i])
  {
    if cs != [] {
      ReportsDescribeEntries(cs[..|cs| - 1]);
    }
  }

  lemma {:induction false} MappingKeepsKinds(reports: seq<Report>, cccds: seq<u16>)
    ensures forall i | 0 <= i < |reports| ::
              MapCccds(reports, cccds)[i] == reports[i].(cccd := MapCccds(reports, cccds)[i].cccd)
    decreases |cccds|
  {
    if cccds != [] {
      var b := Owner(reports, cccds[0]);
      MappingKeepsKinds(if b >= 0 && reports[b].cccd == 0 then reports[b := reports[b].(cccd := cccds[0])] else reports,
                        cccds[1..]);
    }
  }

  /**
   After discovery the first eight entries are what the session's reports describe, so
   boot mode is asked for exactly when one of those eight is a boot report.
   */
  lemma BootModeExactlyWhen(t: Table, s: Session)
    requires Conforming(t) && Finished(t, s)
    ensures var es := Take(ReportEntries(CharsOf(t, s.hidStart, s.hidEnd)), 8);
            && |s.reports| == |es| && (forall i | 0 <= i < |es| :: Describes(s.reports[i], es[i]))
            && (ModeWrite(s) == WriteReq(s.protoMode, [0]) <==> exists i | 0 <= i < |es| :: IsBootEntry(es[i]))
  {
    var cs := CharsOf(t, s.hidStart, s.hidEnd);
    var es := Take(ReportEntries(cs), 8);
    ReportsDescribeEntries(cs);
    MappingKeepsKinds(Take(ReportsIn(cs), 8), s.cccds);
    forall i | 0 <= i < |es|
      ensures Describes(s.reports[i], es[i])
    {
    }
    BootByte(s.protoMode);
    if i :| 0 <= i < |es| && IsBootEntry(es[i]) {
      assert s.reports[i].isBoot;
    }
  }

  lemma BootByte(handle: u16)
    ensures WriteReq(handle, [0]) != WriteReq(handle, [1])
  {
    assert WriteReq(handle, [0])[3] != WriteReq(handle, [1])[3];
  }
}
