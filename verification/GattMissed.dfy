/**
 A conforming peer whose second report is never subscribed to: it has no protocol mode
 and its first report has no CCCD, so enabling does not begin.
 */
module GattMissed {
  import opened Bytes
  import opened GattSession
  import opened GattPeer
  import opened GattDiscovery
  import opened GattSubscribe

  /** From any state of a conversation some answers of a conforming peer finish discovery. */
  lemma {:induction false} DiscoveryCanFinish(t: Table, s: Session) returns (rsps: seq<Octets>)
    requires Conforming(t) && Inv(t, s)
    ensures Conversation(t, s, rsps) && !Discovering(Play(t, s, rsps))
    decreases Rank(s)
  {
    if Discovering(s) {
      PeerCanAnswer(t, s);
      var rsp :| PeerMay(t, Outstanding(s), rsp);
      OneAnswer(t, s, rsp);
      var rest := DiscoveryCanFinish(t, Input(s, rsp));
      rsps := [rsp] + rest;
      assert rsps[0] == rsp && rsps[1..] == rest;
    } else {
      rsps := [];
    }
  }

  /** Once discovery is over the client has nothing to write exactly when enabling does not begin. */
  lemma ReadyAtOnceExactlyWhen(t: Table, s: Session)
    requires Conforming(t) && Finished(t, s)
    ensures s.state == Ready <==> !Begins(s)
  {
    var x: Session :| Learnt(t, x) && s == StartEnable(x);
    ReadyWhenNotBegun(x);
  }

  lemma ReadyWhenNotBegun(x: Session)
    ensures StartEnable(x).state == Ready <==> !Begins(StartEnable(x))
  {
  }

  lemma {:induction false} ReadyStays(s: Session, k: nat)
    requires s.state == Ready && -1 <= s.enableIdx
    ensures Acked(s, k) == s
  {
    if k > 0 {
      ReadyStays(s, k - 1);
    }
  }

  // ---------------------------------------------------------------------------
  // The peer
  // ---------------------------------------------------------------------------

  function Hid(): Entry { Entry(1, Service(7, Short(HID_SERVICE))) }
  function First(): Entry { Entry(2, Characteristic(0x10, 3, Short(REPORT))) }
  function FirstValue(): Entry { Entry(3, Other(Short(REPORT))) }
  function Second(): Entry { Entry(5, Characteristic(0x10, 6, Short(REPORT))) }
  function SecondValue(): Entry { Entry(6, Other(Short(REPORT))) }
  function SecondCccd(): Entry { Entry(7, Other(Short(CCCD))) }

  function Peer(): Table {
    [Hid(), First(), FirstValue(), Second(), SecondValue(), SecondCccd()]
  }

  lemma ConformingSnoc(t: Table, e: Entry)
    requires Conforming(t) && t != [] && t[|t| - 1].handle < e.handle && !e.attr.Service?
    requires UuidOk(TypeOf(e.attr)) && UuidOk(e.attr.uuid)
    ensures Conforming(t + [e])
  {
    var r := t + [e];
    AscendingSnoc(t, e);
    forall i | 0 <= i < |r|
      ensures i < |t| ==> r[i] == t[i]
      ensures i == |t| ==> r[i] == e && !IsHid(r[i])
    {
    }
  }

  lemma AscendingSnoc(t: Table, e: Entry)
    requires Ascending(t) && t != [] && t[|t| - 1].handle < e.handle
    ensures Ascending(t + [e])
  {
    var r := t + [e];
    assert forall i | 0 <= i < |t| :: r[i] == t[i];
    assert forall i | 0 <= i < |t| :: t[i].handle <= t[|t| - 1].handle;
  }

  lemma PeerConforms()
    ensures Conforming(Peer()) && !NoHid(Peer())
  {
    var t1: Table := [Hid()];
    var t2 := t1 + [First()];
    var t3 := t2 + [FirstValue()];
    var t4 := t3 + [Second()];
    var t5 := t4 + [SecondValue()];
    assert Peer() == t5 + [SecondCccd()];
    ConformingSnoc(t1, First());
    ConformingSnoc(t2, FirstValue());
    ConformingSnoc(t3, Second());
    ConformingSnoc(t4, SecondValue());
    ConformingSnoc(t5, SecondCccd());
    assert IsHid(Peer()[0]);
  }

  lemma PickSnoc(t: Table, p: Attr -> bool, e: Entry)
    ensures Pick(t + [e], p) == Pick(t, p) + if p(e.attr) then [e] else []
  {
    assert (t + [e])[..|t|] == t;
  }

  lemma PeerChars()
    ensures Chars(Peer()) == [First(), Second()]
  {
    var t0: Table, t1, t2, t3, t4, t5 := [], [Hid()], [Hid(), First()], [Hid(), First(), FirstValue()],
      [Hid(), First(), FirstValue(), Second()], [Hid(), First(), FirstValue(), Second(), SecondValue()];
    assert t1 == t0 + [Hid()] && t2 == t1 + [First()] && t3 == t2 + [FirstValue()];
    assert t4 == t3 + [Second()] && t5 == t4 + [SecondValue()] && Peer() == t5 + [SecondCccd()];
    PickSnoc(t0, IS_CHARACTERISTIC, Hid());
    PickSnoc(t1, IS_CHARACTERISTIC, First());
    PickSnoc(t2, IS_CHARACTERISTIC, FirstValue());
    PickSnoc(t3, IS_CHARACTERISTIC, Second());
    PickSnoc(t4, IS_CHARACTERISTIC, SecondValue());
    PickSnoc(t5, IS_CHARACTERISTIC, SecondCccd());
  }

  lemma WholeRange(t: Table, lo: int, hi: int)
    requires Ascending(t) && lo <= hi + 1 && forall i | 0 <= i < |t| :: lo <= t[i].handle <= hi
    ensures Range(t, lo, hi) == t
  {
    BelowIs(t, lo, 0);
    BelowIs(t, hi + 1, |t|);
  }

  lemma PeerReports()
    ensures ReportsIn([First(), Second()]) == [NewReport(3, REPORT), NewReport(6, REPORT)]
    ensures ProtocolModeIn([First(), Second()]) == 0
  {
    var one: Table, two: Table := [First()], [First(), Second()];
    assert two[..1] == one && one[..0] == [];
    assert CanNotify(0x10);
    assert ReportsIn(one) == [NewReport(3, REPORT)];
    assert ProtocolModeIn(one) == 0;
  }

  lemma CccdsSnoc(t: Table, e: Entry)
    ensures CccdsIn(t + [e]) == CccdsIn(t) + if TypeOf(e.attr) == Short(CCCD) then [e.handle] else []
  {
    assert (t + [e])[..|t|] == t;
  }

  lemma NoCccds(t: Table)
    requires forall i | 0 <= i < |t| :: TypeOf(t[i].attr) != Short(CCCD)
    ensures CccdsIn(t) == []
  {
  }

  lemma PeerCccds()
    ensures CccdsIn(Peer()) == [7]
  {
    var t := [Hid(), First(), FirstValue(), Second(), SecondValue()];
    NoCccds(t);
    assert Peer() == t + [SecondCccd()];
    CccdsSnoc(t, SecondCccd());
  }

  /** When the HID service spans the whole table, its characteristics and CCCDs are all of them. */
  lemma LearntWhole(t: Table, s: Session)
    requires Conforming(t) && Learnt(t, s) && forall i | 0 <= i < |t| :: s.hidStart <= t[i].handle <= s.hidEnd
    ensures s.protoMode == ProtocolModeIn(Chars(t)) && s.cccds == Take(CccdsIn(t), 8)
    ensures s.reports == MapCccds(Take(ReportsIn(Chars(t)), 8), s.cccds)
  {
    WholeRange(t, s.hidStart, s.hidEnd);
    PickIsOrdered(t, IS_CHARACTERISTIC);
    forall i | 0 <= i < |Chars(t)|
      ensures s.hidStart <= Chars(t)[i].handle <= s.hidEnd
    {
      PickSelects(t, IS_CHARACTERISTIC, Chars(t)[i]);
    }
    WholeRange(Chars(t), s.hidStart, s.hidEnd);
  }

  lemma PeerRange(s: Session)
    requires HidRange(Peer(), s)
    ensures s.hidStart == 1 && s.hidEnd == 7
  {
    var t := Peer();
    var i :| 0 <= i < |t| && IsHid(t[i]) && t[i].handle == s.hidStart && t[i].attr.end == s.hidEnd;
    assert i == 0;
  }

  /** What the client knows of this peer once discovery is over. */
  lemma LearntOfPeer(s: Session)
    requires Conforming(Peer()) && Learnt(Peer(), s)
    ensures s.protoMode == 0 && s.reports == [NewReport(3, REPORT), NewReport(6, REPORT).(cccd := 7)]
  {
    PeerRange(s);
    LearntWhole(Peer(), s);
    PeerChars();
    PeerReports();
    PeerCccds();
    MapOne();
  }

  lemma MapOne()
    ensures MapCccds([NewReport(3, REPORT), NewReport(6, REPORT)], [7])
            == [NewReport(3, REPORT), NewReport(6, REPORT).(cccd := 7)]
  {
    var a, b := NewReport(3, REPORT), NewReport(6, REPORT);
    var rs := [a, b];
    assert rs[..1] == [a] && [a][..0] == [];
    assert Owner([], 7) == -1;
    assert Owner([a], 7) == 0;
    assert Owner(rs, 7) == 1;
    assert [7 as u16][1..] == [];
    assert rs[1 := b.(cccd := 7)] == [a, b.(cccd := 7)];
  }

  /**
   With this peer, every conversation that finishes discovery leaves the client Ready with
   the second report's CCCD known and never written, whatever responses follow.
   */
  lemma LateCccdIsMissed(mtuRsp: Octets, rsps: seq<Octets>)
    requires mtuRsp != [] && mtuRsp[0] == MTU_RSP && Conforming(Peer())
    requires Conversation(Peer(), Input(SendMtu(FRESH), mtuRsp), rsps)
    requires !Discovering(Play(Peer(), Input(SendMtu(FRESH), mtuRsp), rsps))
    ensures var s := Play(Peer(), Input(SendMtu(FRESH), mtuRsp), rsps);
            && s.state == Ready && s.reports == [NewReport(3, REPORT), NewReport(6, REPORT).(cccd := 7)]
            && -1 <= s.enableIdx && forall k: nat :: Acked(s, k) == s
  {
    PeerConforms();
    DiscoveryIsExact(Peer(), mtuRsp, rsps);
    var s := Play(Peer(), Input(SendMtu(FRESH), mtuRsp), rsps);
    LearntOfPeer(s);
    ReadyAtOnceExactlyWhen(Peer(), s);
    forall k: nat
      ensures Acked(s, k) == s
    {
      ReadyStays(s, k);
    }
  }

  /** And there are such conversations. */
  lemma SomeConversationMisses(mtuRsp: Octets) returns (rsps: seq<Octets>)
    requires mtuRsp != [] && mtuRsp[0] == MTU_RSP
    ensures Conforming(Peer()) && Conversation(Peer(), Input(SendMtu(FRESH), mtuRsp), rsps)
    ensures Play(Peer(), Input(SendMtu(FRESH), mtuRsp), rsps).state == Ready
    ensures Expected(Play(Peer(), Input(SendMtu(FRESH), mtuRsp), rsps)) != []
  {
    PeerConforms();
    DiscoveryBegins(Peer(), mtuRsp);
    rsps := DiscoveryCanFinish(Peer(), Input(SendMtu(FRESH), mtuRsp));
    LateCccdIsMissed(mtuRsp, rsps);
    var s := Play(Peer(), Input(SendMtu(FRESH), mtuRsp), rsps);
    assert Subscriptions(s.reports, 1) != [];
    assert Subscriptions(s.reports, 0) != [];
  }
}
