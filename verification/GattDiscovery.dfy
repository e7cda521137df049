/**
 Discovery against a conforming peer. Whatever cuts the peer makes in its answers,
 the client stops after finitely many requests and has learnt exactly the table's
 HID service, its first eight notifying reports, and its first eight CCCDs.
 */
module GattDiscovery {
  import opened Bytes
  import opened GattSession
  import opened GattPeer

  // ---------------------------------------------------------------------------
  // The invariant of the conversation
  // ---------------------------------------------------------------------------

  predicate Discovering(s: Session) {
    s.state in {Svc, Char, Desc} && s.sent != [] && |Outstanding(s)| >= 3
  }

  function Outstanding(s: Session): Octets
    requires s.sent != []
  {
    s.sent[|s.sent| - 1]
  }

  function StartOf(s: Session): u16
    requires Discovering(s)
  {
    Rd16(Outstanding(s), 1)
  }

  /** The session holds the exact range of the table's HID service. */
  predicate HidRange(t: Table, s: Session) {
    && 1 <= s.hidStart <= s.hidEnd
    && exists i | 0 <= i < |t| :: IsHid(t[i]) && t[i].handle == s.hidStart && t[i].attr.end == s.hidEnd
  }

  predicate CharsKnown(t: Table, s: Session, upTo: int)
    requires Ascending(t) && s.hidStart <= upTo + 1
  {
    CharsLearnt(CharScan(s.protoMode, s.reports, 0), CharsOf(t, s.hidStart, upTo))
  }

  predicate SvcInv(t: Table, s: Session)
    requires Ascending(t) && Discovering(s)
  {
    && Outstanding(s) == GroupReq(StartOf(s)) && 1 <= StartOf(s)
    && s.hidStart == 0 && s.protoMode == 0
    && forall i | 0 <= i < Below(Services(t), StartOf(s)) :: !IsHid(Services(t)[i])
  }

  predicate CharInv(t: Table, s: Session)
    requires Ascending(t) && Discovering(s)
  {
    && HidRange(t, s) && s.hidStart <= StartOf(s) <= s.hidEnd
    && Outstanding(s) == TypeReq(StartOf(s), s.hidEnd)
    && CharsKnown(t, s, StartOf(s) - 1)
  }

  predicate DescInv(t: Table, s: Session)
    requires Ascending(t) && Discovering(s)
  {
    && HidRange(t, s) && s.hidStart <= StartOf(s) <= s.hidEnd
    && Outstanding(s) == InfoReq(StartOf(s), s.hidEnd)
    && CharsKnown(t, s, s.hidEnd)
    && InfosLearnt(InfoScan(s.cccds, 0), Range(t, s.hidStart, StartOf(s) - 1))
  }

  /** The exact outcome: service range, first eight reports with CCCDs mapped, mode handle, first eight CCCDs. */
  predicate Learnt(t: Table, s: Session)
    requires Ascending(t)
  {
    && HidRange(t, s)
    && s.cccds == Take(CccdsIn(Range(t, s.hidStart, s.hidEnd)), 8)
    && s.reports == MapCccds(Take(ReportsIn(CharsOf(t, s.hidStart, s.hidEnd)), 8), s.cccds)
    && s.protoMode == ProtocolModeIn(CharsOf(t, s.hidStart, s.hidEnd))
  }

  /** Discovery has just ended: the client knows the table and has started subscribing. */
  ghost predicate Finished(t: Table, s: Session)
    requires Ascending(t)
  {
    Learnt(t, s) && exists x: Session :: Learnt(t, x) && s == StartEnable(x)
  }

  ghost predicate Inv(t: Table, s: Session)
    requires Ascending(t)
  {
    && -1 <= s.enableIdx
    && match s.state
       case Svc => Discovering(s) && SvcInv(t, s)
       case Char => Discovering(s) && CharInv(t, s)
       case Desc => Discovering(s) && DescInv(t, s)
       case Failed => NoHid(t)
       case Enable => Finished(t, s)
       case Ready => Finished(t, s)
       case _ => false
  }

  /** Falls with every answer: phases left, then handles left to ask about. */
  function Rank(s: Session): nat {
    if !Discovering(s) then 0
    else
      (0x1_0000 - StartOf(s))
      + (match s.state case Svc => 2 * 0x1_0001 case Char => 0x1_0001 case _ => 0)
  }

  lemma RequestFields(start: u16, end: u16)
    ensures Rd16(GroupReq(start), 1) == start && Rd16(GroupReq(start), 3) == 0xFFFF
    ensures Rd16(GroupReq(start), 5) == PRIMARY_SERVICE
    ensures Rd16(TypeReq(start, end), 1) == start && Rd16(TypeReq(start, end), 3) == end
    ensures Rd16(TypeReq(start, end), 5) == CHARACTERISTIC
    ensures Rd16(InfoReq(start, end), 1) == start && Rd16(InfoReq(start, end), 3) == end
  {
  }

  // ---------------------------------------------------------------------------
  // Entering each phase
  // ---------------------------------------------------------------------------

  lemma AskServices(t: Table, x: Session, start: u16)
    requires Conforming(t) && 1 <= start && x.hidStart == 0 && x.protoMode == 0 && -1 <= x.enableIdx
    requires forall i | 0 <= i < Below(Services(t), start) :: !IsHid(Services(t)[i])
    ensures var s := DiscoverServices(x, start);
            Inv(t, s) && s.state == Svc && Rank(s) == 2 * 0x1_0001 + 0x1_0000 - start
  {
    RequestFields(start, 0xFFFF);
  }

  lemma AskChars(t: Table, x: Session, start: u16)
    requires Conforming(t) && HidRange(t, x) && -1 <= x.enableIdx
    requires x.hidStart <= start <= x.hidEnd && CharsKnown(t, x, start - 1)
    ensures var s := DiscoverCharacteristics(x, start);
            Inv(t, s) && s.state == Char && Rank(s) == 0x1_0001 + 0x1_0000 - start
  {
    RequestFields(start, x.hidEnd);
    assert HidRange(t, DiscoverCharacteristics(x, start));
  }

  lemma AskInfos(t: Table, x: Session, start: u16)
    requires Conforming(t) && HidRange(t, x) && -1 <= x.enableIdx
    requires x.hidStart <= start <= x.hidEnd && CharsKnown(t, x, x.hidEnd)
    requires InfosLearnt(InfoScan(x.cccds, 0), Range(t, x.hidStart, start - 1))
    ensures var s := DiscoverDescriptors(x, start);
            Inv(t, s) && s.state == Desc && Rank(s) == 0x1_0000 - start
  {
    RequestFields(start, x.hidEnd);
    assert HidRange(t, DiscoverDescriptors(x, start));
  }

  lemma FirstChars(t: Table, x: Session)
    requires Conforming(t) && HidRange(t, x) && x.protoMode == 0 && -1 <= x.enableIdx
    ensures var s := DiscoverCharacteristics(x.(reports := []), x.hidStart);
            Inv(t, s) && s.state == Char && Rank(s) < 2 * 0x1_0001
  {
    var y := x.(reports := []);
    assert HidRange(t, y);
    assert CharsOf(t, y.hidStart, y.hidStart - 1) == [];
    AskChars(t, y, y.hidStart);
  }

  lemma FirstInfos(t: Table, x: Session)
    requires Conforming(t) && HidRange(t, x) && CharsKnown(t, x, x.hidEnd) && -1 <= x.enableIdx
    ensures var s := DiscoverDescriptors(x.(cccds := []), x.hidStart);
            Inv(t, s) && s.state == Desc && Rank(s) < 0x1_0001
  {
    var y := x.(cccds := []);
    assert HidRange(t, y);
    assert CharsKnown(t, y, y.hidEnd);
    assert Range(t, y.hidStart, y.hidStart - 1) == [];
    AskInfos(t, y, y.hidStart);
  }

  lemma EnableKeepsLearnt(t: Table, y: Session)
    requires Ascending(t) && Learnt(t, y) && -1 <= y.enableIdx
    ensures Finished(t, StartEnable(y)) && -1 <= StartEnable(y).enableIdx
    ensures StartEnable(y).state == Enable || StartEnable(y).state == Ready
  {
    var s := StartEnable(y);
    assert s.hidStart == y.hidStart && s.hidEnd == y.hidEnd && s.cccds == y.cccds;
    assert s.reports == y.reports && s.protoMode == y.protoMode;
    assert HidRange(t, s);
  }

  lemma Finish(t: Table, x: Session)
    requires Conforming(t) && HidRange(t, x) && CharsKnown(t, x, x.hidEnd) && -1 <= x.enableIdx
    requires InfosLearnt(InfoScan(x.cccds, 0), Range(t, x.hidStart, x.hidEnd))
    ensures var s := StartEnable(x.(reports := MapCccds(x.reports, x.cccds)));
            Inv(t, s) && (s.state == Enable || s.state == Ready)
  {
    var y := x.(reports := MapCccds(x.reports, x.cccds));
    assert HidRange(t, y);
    EnableKeepsLearnt(t, y);
  }

  // ---------------------------------------------------------------------------
  // One answer
  // ---------------------------------------------------------------------------

  lemma NotFoundAnswer(op: byte, start: u16)
    ensures var rsp := ErrorFor(op, start, NOT_FOUND);
            |rsp| == 5 && rsp[0] == ERROR_RSP && rsp[4] == NOT_FOUND && Readable(rsp)
  {
  }

  lemma GroupAnswer(t: Table, start: u16, rsp: Octets) returns (n: nat)
    requires Conforming(t) && PeerMay(t, GroupReq(start), rsp)
    ensures Ascending(Services(t)) && n <= |Range(Services(t), start, 0xFFFF)| && Readable(rsp)
    ensures var es := Range(Services(t), start, 0xFFFF)[..n];
            && (forall i | 0 <= i < |es| :: es[i].attr.Service?)
            && if n == 0 then Range(Services(t), start, 0xFFFF) == [] && rsp == ErrorFor(GROUP_REQ, start, NOT_FOUND)
               else && |rsp| >= 2 && rsp[0] == GROUP_RSP && rsp[1] >= 4
                    && forall a :: ScanServices(a, Entries(rsp[2..], rsp[1])) == FoldServices(a, es)
  {
    RequestFields(start, 0xFFFF);
    ServicesConform(t);
    var matches := Range(Services(t), start, 0xFFFF);
    assert ListAnswer(matches, GROUP_REQ, GROUP_RSP, start, rsp, false, GROUP_TAG);
    if matches == [] {
      NotFoundAnswer(GROUP_REQ, start);
      return 0;
    }
    n :| 0 < n <= |matches| && OneSize(UuidsOf(matches[..n], false))
         && rsp == ListRsp(GROUP_RSP, GROUP_TAG(UuidsOf(matches[..n], false)[0].Short?), matches[..n], false);
    forall i | 0 <= i < n
      ensures matches[..n][i].attr.Service? && UuidOk(matches[..n][i].attr.uuid)
    {
      RangeMembers(Services(t), start, 0xFFFF, i);
    }
    forall a {
      ParsedServices(a, matches[..n], rsp);
    }
  }

  lemma TypeAnswer(t: Table, start: u16, end: u16, rsp: Octets) returns (n: nat)
    requires Conforming(t) && start <= end && PeerMay(t, TypeReq(start, end), rsp)
    ensures Ascending(Chars(t)) && n <= |Range(Chars(t), start, end)| && Readable(rsp)
    ensures var es := Range(Chars(t), start, end)[..n];
            && (forall i | 0 <= i < |es| :: es[i].attr.Characteristic?)
            && if n == 0 then Range(Chars(t), start, end) == [] && rsp == ErrorFor(TYPE_REQ, start, NOT_FOUND)
               else && |rsp| >= 2 && rsp[0] == TYPE_RSP && rsp[1] >= 5
                    && forall a :: ScanChars(a, Entries(rsp[2..], rsp[1])) == FoldChars(a, es)
  {
    RequestFields(start, end);
    CharsConform(t);
    var matches := Range(Chars(t), start, end);
    assert ListAnswer(matches, TYPE_REQ, TYPE_RSP, start, rsp, false, TYPE_TAG);
    if matches == [] {
      NotFoundAnswer(TYPE_REQ, start);
      return 0;
    }
    n :| 0 < n <= |matches| && OneSize(UuidsOf(matches[..n], false))
         && rsp == ListRsp(TYPE_RSP, TYPE_TAG(UuidsOf(matches[..n], false)[0].Short?), matches[..n], false);
    forall i | 0 <= i < n
      ensures matches[..n][i].attr.Characteristic? && UuidOk(matches[..n][i].attr.uuid)
    {
      RangeMembers(Chars(t), start, end, i);
    }
    forall a {
      ParsedChars(a, matches[..n], rsp);
    }
  }

  lemma FindInfoAnswer(t: Table, start: u16, end: u16, rsp: Octets) returns (n: nat)
    requires Conforming(t) && start <= end && PeerMay(t, InfoReq(start, end), rsp)
    ensures n <= |Range(t, start, end)| && Readable(rsp)
    ensures if n == 0 then Range(t, start, end) == [] && rsp == ErrorFor(INFO_REQ, start, NOT_FOUND)
            else && |rsp| >= 2 && rsp[0] == INFO_RSP
                 && forall a :: ScanInfos(a, Entries(rsp[2..], InfoSize(rsp[1])))
                                == FoldInfos(a, Range(t, start, end)[..n])
  {
    RequestFields(start, end);
    var matches := Range(t, start, end);
    assert ListAnswer(matches, INFO_REQ, INFO_RSP, start, rsp, true, INFO_TAG);
    if matches == [] {
      NotFoundAnswer(INFO_REQ, start);
      return 0;
    }
    n :| 0 < n <= |matches| && OneSize(UuidsOf(matches[..n], true))
         && rsp == ListRsp(INFO_RSP, INFO_TAG(UuidsOf(matches[..n], true)[0].Short?), matches[..n], true);
    forall i | 0 <= i < n
      ensures UuidOk(TypeOf(matches[..n][i].attr))
    {
      RangeMembers(t, start, end, i);
    }
    forall a {
      ParsedInfos(a, matches[..n], rsp);
    }
  }

  lemma NoServicesLeft(t: Table, start: int)
    requires Conforming(t) && start <= 0x1_0000 && Ascending(Services(t)) && Range(Services(t), start, 0xFFFF) == []
    requires forall i | 0 <= i < Below(Services(t), start) :: !IsHid(Services(t)[i])
    ensures NoHid(t)
  {
    ServicesConform(t);
    BelowIs(Services(t), 0x1_0000, |Services(t)|);
  }

  /** Either one of the services b .. b+n-1 is the HID service, or none up to b+n-1 is. */
  lemma ServiceStep(ss: Table, b: nat, n: nat, a: ServiceScan)
    requires 0 < n && b + n <= |ss| && a.hidStart == 0
    requires forall i | 0 <= i < |ss| :: ss[i].attr.Service? && 1 <= ss[i].handle <= ss[i].attr.end
    requires forall i, j | 0 <= i < j < |ss| && IsHid(ss[i]) :: !IsHid(ss[j])
    requires forall i | 0 <= i < b :: !IsHid(ss[i])
    ensures var r := FoldServices(a, ss[b..b + n]);
            && r.last == ss[b + n - 1].attr.end
            && if r.hidStart == 0 then forall i | 0 <= i < b + n :: !IsHid(ss[i])
               else exists k | 0 <= k < |ss| :: IsHid(ss[k]) && ss[k].handle == r.hidStart && ss[k].attr.end == r.hidEnd
  {
    var es := ss[b..b + n];
    FoldServicesLearns(a, es);
    if k :| 0 <= k < n && IsHid(es[k]) {
      assert es[k] == ss[b + k];
    } else {
      forall i | 0 <= i < b + n
        ensures !IsHid(ss[i])
      {
        if i >= b {
          assert ss[i] == es[i - b];
        }
      }
    }
  }

  lemma NextServices(ss: Table, start: int, a: ServiceScan, n: nat)
    requires ServicesOk(ss) && start <= 0xFFFF && a.hidStart == 0
    requires 0 < n <= |Range(ss, start, 0xFFFF)|
    requires forall i | 0 <= i < n :: Range(ss, start, 0xFFFF)[..n][i].attr.Service?
    requires forall i | 0 <= i < Below(ss, start) :: !IsHid(ss[i])
    ensures var r := FoldServices(a, Range(ss, start, 0xFFFF)[..n]);
            && start <= r.last
            && if r.hidStart == 0 then
                 && (forall i | 0 <= i < Below(ss, r.last + 1) :: !IsHid(ss[i]))
                 && (r.last == 0xFFFF ==> forall i | 0 <= i < |ss| :: !IsHid(ss[i]))
               else exists k | 0 <= k < |ss| :: IsHid(ss[k]) && ss[k].handle == r.hidStart && ss[k].attr.end == r.hidEnd
  {
    var b := Below(ss, start);
    BelowMonotone(ss, start, 0x1_0000);
    assert Range(ss, start, 0xFFFF)[..n] == ss[b..b + n];
    ServiceStep(ss, b, n, a);
    BelowSplits(ss, start);
    var last: int := ss[b + n - 1].attr.end;
    assert start <= ss[b + n - 1].handle <= last;
    BelowIs(ss, last + 1, b + n);
  }

  lemma HidFound(t: Table, s: Session)
    requires Conforming(t)
    requires exists k | 0 <= k < |Services(t)| ::
               IsHid(Services(t)[k]) && Services(t)[k].handle == s.hidStart && Services(t)[k].attr.end == s.hidEnd
    ensures HidRange(t, s)
  {
    ServicesConform(t);
    var k :| 0 <= k < |Services(t)|
             && IsHid(Services(t)[k]) && Services(t)[k].handle == s.hidStart && Services(t)[k].attr.end == s.hidEnd;
    var i :| 0 <= i < |t| && t[i] == Services(t)[k];
  }

  lemma ServicesOutcome(t: Table, s: Session, n: nat)
    requires Conforming(t) && s.state == Svc && Inv(t, s) && Ascending(Services(t))
    requires 0 < n <= |Range(Services(t), StartOf(s), 0xFFFF)|
    requires forall i | 0 <= i < n :: Range(Services(t), StartOf(s), 0xFFFF)[..n][i].attr.Service?
    ensures var r := FoldServices(ServiceScan(0, s.hidEnd, 0), Range(Services(t), StartOf(s), 0xFFFF)[..n]);
            && StartOf(s) <= r.last
            && if r.hidStart != 0 then HidRange(t, s.(hidStart := r.hidStart, hidEnd := r.hidEnd))
               else && (forall i | 0 <= i < Below(Services(t), r.last + 1) :: !IsHid(Services(t)[i]))
                    && (r.last == 0xFFFF ==> NoHid(t))
  {
    ServicesConform(t);
    NextServices(Services(t), StartOf(s), ServiceScan(0, s.hidEnd, 0), n);
    var r := FoldServices(ServiceScan(0, s.hidEnd, 0), Range(Services(t), StartOf(s), 0xFFFF)[..n]);
    if r.hidStart != 0 {
      HidFound(t, s.(hidStart := r.hidStart, hidEnd := r.hidEnd));
    }
  }

  lemma ServicesNext(t: Table, s: Session, rsp: Octets, n: nat)
    requires Conforming(t) && s.state == Svc && Inv(t, s) && Ascending(Services(t))
    requires 0 < n <= |Range(Services(t), StartOf(s), 0xFFFF)|
    requires forall i | 0 <= i < n :: Range(Services(t), StartOf(s), 0xFFFF)[..n][i].attr.Service?
    requires |rsp| >= 2 && rsp[1] >= 4
    requires ScanServices(ServiceScan(0, s.hidEnd, 0), Entries(rsp[2..], rsp[1]))
             == FoldServices(ServiceScan(0, s.hidEnd, 0), Range(Services(t), StartOf(s), 0xFFFF)[..n])
    ensures Inv(t, OnGroup(s, rsp)) && Rank(OnGroup(s, rsp)) < Rank(s)
  {
    ServicesOutcome(t, s, n);
    var r := ScanServices(ServiceScan(0, s.hidEnd, 0), Entries(rsp[2..], rsp[1]));
    var s' := s.(hidStart := r.hidStart, hidEnd := r.hidEnd);
    var last: int := r.last;
    if r.hidStart != 0 {
      FirstChars(t, s');
      assert OnGroup(s, rsp) == DiscoverCharacteristics(s'.(reports := []), r.hidStart);
    } else if last < 0xFFFF {
      AskServices(t, s', last + 1);
      assert OnGroup(s, rsp) == DiscoverServices(s', last + 1);
    } else {
      assert OnGroup(s, rsp) == s'.(state := Failed);
    }
  }

  lemma ServiceAnswer(t: Table, s: Session, rsp: Octets)
    requires Conforming(t) && s.state == Svc && Inv(t, s) && PeerMay(t, Outstanding(s), rsp)
    ensures Readable(rsp) && Inv(t, Input(s, rsp)) && Rank(Input(s, rsp)) < Rank(s)
  {
    var n := GroupAnswer(t, StartOf(s), rsp);
    if n == 0 {
      NoServicesLeft(t, StartOf(s));
      assert Input(s, rsp) == s.(state := Failed);
    } else {
      ServicesNext(t, s, rsp, n);
      assert Input(s, rsp) == OnGroup(s, rsp);
    }
  }

  lemma CharStep(t: Table, s: Session, n: nat) returns (r: CharScan)
    requires Conforming(t) && s.state == Char && Inv(t, s) && Ascending(Chars(t))
    requires 0 < n <= |Range(Chars(t), StartOf(s), s.hidEnd)|
    requires forall i | 0 <= i < n :: Range(Chars(t), StartOf(s), s.hidEnd)[..n][i].attr.Characteristic?
    ensures r == FoldChars(CharScan(s.protoMode, s.reports, 0), Range(Chars(t), StartOf(s), s.hidEnd)[..n])
    ensures StartOf(s) <= r.last <= s.hidEnd
    ensures CharsLearnt(CharScan(r.protoMode, r.reports, 0), CharsOf(t, s.hidStart, r.last))
  {
    var start := StartOf(s);
    var es := Range(Chars(t), start, s.hidEnd)[..n];
    LeadingPart(Chars(t), s.hidStart, start, s.hidEnd, n);
    FoldCharsLearns(CharScan(s.protoMode, s.reports, 0), CharsOf(t, s.hidStart, start - 1), es);
    r := FoldChars(CharScan(s.protoMode, s.reports, 0), es);
  }

  lemma CharsGoOn(t: Table, s: Session, r: CharScan)
    requires Conforming(t) && Discovering(s) && s.state == Char && -1 <= s.enableIdx
    requires HidRange(t, s) && s.hidStart <= StartOf(s) <= r.last < s.hidEnd
    requires CharsLearnt(CharScan(r.protoMode, r.reports, 0), CharsOf(t, s.hidStart, r.last))
    ensures Inv(t, AfterChars(s, r)) && Rank(AfterChars(s, r)) < Rank(s)
  {
    var s' := s.(protoMode := r.protoMode, reports := r.reports);
    assert HidRange(t, s') && CharsKnown(t, s', r.last);
    var last: int := r.last;
    AskChars(t, s', last + 1);
  }

  lemma CharsEnd(t: Table, s: Session, r: CharScan)
    requires Conforming(t) && Discovering(s) && s.state == Char && -1 <= s.enableIdx
    requires HidRange(t, s) && r.last == s.hidEnd
    requires CharsLearnt(CharScan(r.protoMode, r.reports, 0), CharsOf(t, s.hidStart, r.last))
    ensures Inv(t, AfterChars(s, r)) && Rank(AfterChars(s, r)) < Rank(s)
  {
    var s' := s.(protoMode := r.protoMode, reports := r.reports);
    assert HidRange(t, s') && CharsKnown(t, s', r.last);
    FirstInfos(t, s');
  }

  lemma CharsNext(t: Table, s: Session, rsp: Octets, n: nat)
    requires Conforming(t) && s.state == Char && Inv(t, s) && Ascending(Chars(t))
    requires 0 < n <= |Range(Chars(t), StartOf(s), s.hidEnd)|
    requires forall i | 0 <= i < n :: Range(Chars(t), StartOf(s), s.hidEnd)[..n][i].attr.Characteristic?
    requires |rsp| >= 2 && rsp[1] >= 5
    requires ScanChars(CharScan(s.protoMode, s.reports, 0), Entries(rsp[2..], rsp[1]))
             == FoldChars(CharScan(s.protoMode, s.reports, 0), Range(Chars(t), StartOf(s), s.hidEnd)[..n])
    ensures Inv(t, OnType(s, rsp)) && Rank(OnType(s, rsp)) < Rank(s)
  {
    var r := CharStep(t, s, n);
    if r.last < s.hidEnd {
      CharsGoOn(t, s, r);
    } else {
      CharsEnd(t, s, r);
    }
  }

  lemma CharsDone(t: Table, s: Session)
    requires Conforming(t) && s.state == Char && Inv(t, s) && Ascending(Chars(t))
    requires Range(Chars(t), StartOf(s), s.hidEnd) == []
    ensures var r := DiscoverDescriptors(s.(cccds := []), s.hidStart);
            Inv(t, r) && Rank(r) < Rank(s)
  {
    NothingMore(Chars(t), s.hidStart, StartOf(s), s.hidEnd);
    FirstInfos(t, s);
  }

  lemma CharAnswer(t: Table, s: Session, rsp: Octets)
    requires Conforming(t) && s.state == Char && Inv(t, s) && PeerMay(t, Outstanding(s), rsp)
    ensures Readable(rsp) && Inv(t, Input(s, rsp)) && Rank(Input(s, rsp)) < Rank(s)
  {
    var n := TypeAnswer(t, StartOf(s), s.hidEnd, rsp);
    if n == 0 {
      CharsDone(t, s);
    } else {
      CharsNext(t, s, rsp, n);
    }
  }

  lemma InfoStep(t: Table, s: Session, n: nat) returns (r: InfoScan)
    requires Conforming(t) && s.state == Desc && Inv(t, s)
    requires 0 < n <= |Range(t, StartOf(s), s.hidEnd)|
    ensures r == FoldInfos(InfoScan(s.cccds, 0), Range(t, StartOf(s), s.hidEnd)[..n])
    ensures StartOf(s) <= r.last <= s.hidEnd
    ensures InfosLearnt(InfoScan(r.cccds, 0), Range(t, s.hidStart, r.last))
  {
    var start := StartOf(s);
    var es := Range(t, start, s.hidEnd)[..n];
    LeadingPart(t, s.hidStart, start, s.hidEnd, n);
    FoldInfosLearns(InfoScan(s.cccds, 0), Range(t, s.hidStart, start - 1), es);
    r := FoldInfos(InfoScan(s.cccds, 0), es);
  }

  lemma InfosGoOn(t: Table, s: Session, r: InfoScan)
    requires Conforming(t) && Discovering(s) && s.state == Desc && -1 <= s.enableIdx
    requires HidRange(t, s) && s.hidStart <= StartOf(s) <= r.last < s.hidEnd
    requires CharsKnown(t, s, s.hidEnd) && InfosLearnt(InfoScan(r.cccds, 0), Range(t, s.hidStart, r.last))
    ensures Inv(t, AfterInfos(s, r)) && Rank(AfterInfos(s, r)) < Rank(s)
  {
    var s' := s.(cccds := r.cccds);
    assert HidRange(t, s') && CharsKnown(t, s', s'.hidEnd);
    var last: int := r.last;
    AskInfos(t, s', last + 1);
  }

  lemma InfosEnd(t: Table, s: Session, r: InfoScan)
    requires Conforming(t) && Discovering(s) && s.state == Desc && -1 <= s.enableIdx
    requires HidRange(t, s) && r.last == s.hidEnd
    requires CharsKnown(t, s, s.hidEnd) && InfosLearnt(InfoScan(r.cccds, 0), Range(t, s.hidStart, r.last))
    ensures Inv(t, AfterInfos(s, r)) && Rank(AfterInfos(s, r)) < Rank(s)
  {
    var s' := s.(cccds := r.cccds);
    assert HidRange(t, s') && CharsKnown(t, s', s'.hidEnd);
    Finish(t, s');
  }

  lemma InfosNext(t: Table, s: Session, rsp: Octets, n: nat)
    requires Conforming(t) && s.state == Desc && Inv(t, s)
    requires 0 < n <= |Range(t, StartOf(s), s.hidEnd)| && |rsp| >= 2
    requires ScanInfos(InfoScan(s.cccds, 0), Entries(rsp[2..], InfoSize(rsp[1])))
             == FoldInfos(InfoScan(s.cccds, 0), Range(t, StartOf(s), s.hidEnd)[..n])
    ensures Inv(t, OnInfo(s, rsp)) && Rank(OnInfo(s, rsp)) < Rank(s)
  {
    var r := InfoStep(t, s, n);
    if r.last < s.hidEnd {
      InfosGoOn(t, s, r);
    } else {
      InfosEnd(t, s, r);
    }
  }

  lemma InfosDone(t: Table, s: Session)
    requires Conforming(t) && s.state == Desc && Inv(t, s) && Range(t, StartOf(s), s.hidEnd) == []
    ensures var r := StartEnable(s.(reports := MapCccds(s.reports, s.cccds)));
            Inv(t, r) && Rank(r) < Rank(s)
  {
    NothingMore(t, s.hidStart, StartOf(s), s.hidEnd);
    Finish(t, s);
  }

  lemma InfoAnswer(t: Table, s: Session, rsp: Octets)
    requires Conforming(t) && s.state == Desc && Inv(t, s) && PeerMay(t, Outstanding(s), rsp)
    ensures Readable(rsp) && Inv(t, Input(s, rsp)) && Rank(Input(s, rsp)) < Rank(s)
  {
    var n := FindInfoAnswer(t, StartOf(s), s.hidEnd, rsp);
    if n == 0 {
      InfosDone(t, s);
      assert Input(s, rsp) == OnError(s, rsp);
    } else {
      InfosNext(t, s, rsp, n);
      assert Input(s, rsp) == OnInfo(s, rsp);
    }
  }

  // ---------------------------------------------------------------------------
  // Whole conversations
  // ---------------------------------------------------------------------------

  /** Each response is one the peer may give to the request then outstanding. */
  predicate Conversation(t: Table, s: Session, rsps: seq<Octets>)
    requires Ascending(t)
    decreases |rsps|
  {
    rsps == [] || (&& Discovering(s) && -1 <= s.enableIdx
                   && PeerMay(t, Outstanding(s), rsps[0]) && Readable(rsps[0])
                   && Conversation(t, Input(s, rsps[0]), rsps[1..]))
  }

  function Play(t: Table, s: Session, rsps: seq<Octets>): Session
    requires Ascending(t) && Conversation(t, s, rsps)
    decreases |rsps|
  {
    if rsps == [] then s else Play(t, Input(s, rsps[0]), rsps[1..])
  }

  lemma OneAnswer(t: Table, s: Session, rsp: Octets)
    requires Conforming(t) && Inv(t, s) && Discovering(s) && PeerMay(t, Outstanding(s), rsp)
    ensures Readable(rsp) && Inv(t, Input(s, rsp)) && Rank(Input(s, rsp)) < Rank(s)
  {
    match s.state
    case Svc => ServiceAnswer(t, s, rsp);
    case Char => CharAnswer(t, s, rsp);
    case _ => InfoAnswer(t, s, rsp);
  }

  lemma {:induction false} ConversationKeepsInv(t: Table, s: Session, rsps: seq<Octets>)
    requires Conforming(t) && Inv(t, s) && Conversation(t, s, rsps)
    ensures Inv(t, Play(t, s, rsps)) && |rsps| <= Rank(s)
    decreases |rsps|
  {
    if rsps != [] {
      OneAnswer(t, s, rsps[0]);
      ConversationKeepsInv(t, Input(s, rsps[0]), rsps[1..]);
    }
  }

  /** While discovery lasts, a conforming peer always has an answer to give. */
  lemma PeerCanAnswer(t: Table, s: Session)
    requires Conforming(t) && Inv(t, s) && Discovering(s)
    ensures exists rsp :: PeerMay(t, Outstanding(s), rsp)
  {
    RequestFields(StartOf(s), if s.state == Svc then 0xFFFF else s.hidEnd);
    PickIsOrdered(t, IS_SERVICE);
    PickIsOrdered(t, IS_CHARACTERISTIC);
    var info := s.state == Desc;
    var op, tag := if s.state == Svc then GROUP_RSP else if s.state == Char then TYPE_RSP else INFO_RSP,
                   if s.state == Svc then GROUP_TAG else if s.state == Char then TYPE_TAG else INFO_TAG;
    var matches := if s.state == Svc then Range(Services(t), StartOf(s), 0xFFFF)
                   else Range(if s.state == Char then Chars(t) else t, StartOf(s), s.hidEnd);
    if matches == [] {
      assert PeerMay(t, Outstanding(s), ErrorFor(Outstanding(s)[0], StartOf(s), NOT_FOUND));
    } else {
      assert 0 < 1 <= |matches| && OneSize(UuidsOf(matches[..1], info));
      assert PeerMay(t, Outstanding(s), ListRsp(op, tag(UuidsOf(matches[..1], info)[0].Short?), matches[..1], info));
    }
  }

  /** The MTU response starts discovery with the first handle. */
  lemma DiscoveryBegins(t: Table, mtuRsp: Octets)
    requires Conforming(t) && mtuRsp != [] && mtuRsp[0] == MTU_RSP
    ensures var s := Input(SendMtu(FRESH), mtuRsp);
            Inv(t, s) && Rank(s) <= 3 * 0x1_0001
  {
    ServicesConform(t);
    BelowIs(Services(t), 1, 0);
    AskServices(t, SendMtu(FRESH).(mtu := Input(SendMtu(FRESH), mtuRsp).mtu), 1);
  }

  /**
   Main theorem. From link-up, after the MTU exchange, against every conforming
   table and however the peer cuts its answers: the conversation is bounded; while
   it lasts the peer can answer; and when it is over the client is in Failed exactly
   when the table has no HID service, and otherwise has learnt the table exactly.
   */
  lemma DiscoveryIsExact(t: Table, mtuRsp: Octets, rsps: seq<Octets>)
    requires Conforming(t) && mtuRsp != [] && mtuRsp[0] == MTU_RSP
    requires Conversation(t, Input(SendMtu(FRESH), mtuRsp), rsps)
    ensures |rsps| <= 3 * 0x1_0001
    ensures var s := Play(t, Input(SendMtu(FRESH), mtuRsp), rsps);
            if Discovering(s) then exists rsp :: PeerMay(t, Outstanding(s), rsp)
            else if NoHid(t) then s.state == Failed
            else Finished(t, s) && (s.state == Enable || s.state == Ready)
  {
    var s0 := Input(SendMtu(FRESH), mtuRsp);
    DiscoveryBegins(t, mtuRsp);
    ConversationKeepsInv(t, s0, rsps);
    var s := Play(t, s0, rsps);
    if Discovering(s) {
      PeerCanAnswer(t, s);
    } else if NoHid(t) {
      assert !HidRange(t, s);
    }
  }
}
