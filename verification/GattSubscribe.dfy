/**
 After discovery: which CCCD each report gets, the order of the subscription
 writes, the one-outstanding-request rule, and all of it end to end against a
 conforming table.
 */
module GattSubscribe {
  import opened Bytes
  import opened GattSession
  import opened GattPeer
  import opened GattDiscovery

  // ---------------------------------------------------------------------------
  // CCCD mapping
  // ---------------------------------------------------------------------------

  predicate AscendingVals(reports: seq<Report>) {
    forall i, j | 0 <= i < j < |reports| :: reports[i].val < reports[j].val
  }

  /** First collected CCCD with lo < handle <= hi; 0 when there is none. */
  function FirstIn(cccds: seq<u16>, lo: u16, hi: u16): u16 {
    if cccds == [] then 0
    else if lo < cccds[0] <= hi then cccds[0] else FirstIn(cccds[1..], lo, hi)
  }

  /** CCCDs up to here may belong to report r: the next report's value handle, or the end. */
  function Upper(reports: seq<Report>, r: nat): u16
    requires r < |reports|
  {
    if r + 1 < |reports| then reports[r + 1].val else 0xFFFF
  }

  lemma {:induction false} OwnerIsLastBelow(reports: seq<Report>, ch: u16)
    requires AscendingVals(reports)
    ensures forall r | 0 <= r < |reports| :: r <= Owner(reports, ch) <==> reports[r].val < ch
  {
    if reports != [] {
      var front := reports[..|reports| - 1];
      OwnerIsLastBelow(front, ch);
      assert forall r | 0 <= r < |front| :: front[r] == reports[r];
    }
  }

  /**
   The mapping, exactly, for any list of collected CCCDs: a report without one gets
   the first CCCD between its own value handle and the next report's.
   */
  lemma {:induction false} MappingIsFirstBetween(reports: seq<Report>, cccds: seq<u16>, r: nat)
    requires AscendingVals(reports) && r < |reports|
    requires forall i | 0 <= i < |cccds| :: cccds[i] != 0
    ensures MapCccds(reports, cccds)[r]
            == if reports[r].cccd != 0 then reports[r]
               else reports[r].(cccd := FirstIn(cccds, reports[r].val, Upper(reports, r)))
    decreases |cccds|
  {
    if cccds != [] {
      var ch := cccds[0];
      OwnerIsLastBelow(reports, ch);
      var b := Owner(reports, ch);
      var next := if b >= 0 && reports[b].cccd == 0 then reports[b := reports[b].(cccd := ch)] else reports;
      assert AscendingVals(next);
      MappingIsFirstBetween(next, cccds[1..], r);
      assert (b == r) == (reports[r].val < ch <= Upper(reports, r));
    }
  }

  predicate Increasing(s: seq<u16>) {
    forall i, j | 0 <= i < j < |s| :: s[i] < s[j]
  }

  /** own[r] is collected, lies between report r and the next characteristic, and is the only CCCD there. */
  predicate OwnCccds(reports: seq<Report>, cccds: seq<u16>, own: seq<u16>, nextDecl: seq<int>) {
    && |own| == |nextDecl| == |reports|
    && forall r | 0 <= r < |reports| ::
         && own[r] in cccds && reports[r].val < own[r] < nextDecl[r] <= Upper(reports, r) + 1
         && forall i | 0 <= i < |cccds| && reports[r].val < cccds[i] < nextDecl[r] :: cccds[i] == own[r]
  }

  lemma {:induction false} FirstInFindsOwn(cccds: seq<u16>, lo: u16, hi: u16, own: u16, next: int)
    requires Increasing(cccds) && own in cccds && lo < own < next <= hi + 1
    requires forall i | 0 <= i < |cccds| && lo < cccds[i] < next :: cccds[i] == own
    ensures FirstIn(cccds, lo, hi) == own
  {
    if !(lo < cccds[0] <= hi) {
      assert own in cccds[1..];
      forall i | 0 <= i < |cccds[1..]| && lo < cccds[1..][i] < next
        ensures cccds[1..][i] == own
      {
        assert cccds[1..][i] == cccds[i + 1];
      }
      FirstInFindsOwn(cccds[1..], lo, hi, own, next);
    } else {
      var k :| 0 <= k < |cccds| && cccds[k] == own;
    }
  }

  /** Every report ends up with its own CCCD, whatever foreign CCCDs lie in the service. */
  lemma EveryReportGetsItsOwn(reports: seq<Report>, cccds: seq<u16>, own: seq<u16>, nextDecl: seq<int>)
    requires AscendingVals(reports) && Increasing(cccds)
    requires forall i | 0 <= i < |cccds| :: cccds[i] != 0
    requires forall r | 0 <= r < |reports| :: reports[r].cccd == 0
    requires OwnCccds(reports, cccds, own, nextDecl)
    ensures forall r | 0 <= r < |reports| :: MapCccds(reports, cccds)[r] == reports[r].(cccd := own[r])
  {
    forall r | 0 <= r < |reports|
      ensures MapCccds(reports, cccds)[r] == reports[r].(cccd := own[r])
    {
      MappingIsFirstBetween(reports, cccds, r);
      FirstInFindsOwn(cccds, reports[r].val, Upper(reports, r), own[r], nextDecl[r]);
    }
  }

  // ---------------------------------------------------------------------------
  // Subscription writes
  // ---------------------------------------------------------------------------

  /** Subscription writes for the reports from index i on that have a CCCD. */
  function Subscriptions(reports: seq<Report>, i: nat): seq<Octets>
    decreases |reports| - i
  {
    if i >= |reports| then []
    else (if reports[i].cccd != 0 then [Subscribe(reports[i])] else []) + Subscriptions(reports, i + 1)
  }

  /** Everything that should be written: the protocol mode, if any, then each CCCD once in index order. */
  function Expected(s: Session): seq<Octets> {
    (if s.protoMode != 0 then [ModeWrite(s)] else []) + Subscriptions(s.reports, 0)
  }

  /** The condition under which enabling starts with a write at all. */
  predicate Begins(s: Session) {
    s.protoMode != 0 || (s.reports != [] && s.reports[0].cccd != 0)
  }

  lemma {:induction false} SubscriptionsFrom(reports: seq<Report>, i: nat)
    requires i <= |reports|
    ensures var r := NextWithCccd(reports, i);
            Subscriptions(reports, i)
            == if r < |reports| then [Subscribe(reports[r])] + Subscriptions(reports, r + 1) else []
    decreases |reports| - i
  {
    if i < |reports| && reports[i].cccd == 0 {
      SubscriptionsFrom(reports, i + 1);
    }
  }

  /** The client after k write responses. */
  function Acked(s: Session, k: nat): (r: Session)
    requires -1 <= s.enableIdx
    ensures -1 <= r.enableIdx
  {
    if k == 0 then s else OnWrite(Acked(s, k - 1))
  }

  predicate Enabling(s: Session) {
    s.state == Enable && -1 <= s.enableIdx < |s.reports|
  }

  /** Subscription writes still to come. */
  function Left(s: Session): seq<Octets>
    requires Enabling(s)
  {
    Subscriptions(s.reports, s.enableIdx + 1)
  }

  lemma LastAck(s: Session)
    requires Enabling(s) && Left(s) == []
    ensures OnWrite(s) == s.(state := Ready, attached := true)
  {
    SubscriptionsFrom(s.reports, s.enableIdx + 1);
  }

  lemma MoreAck(s: Session) returns (r: nat)
    requires Enabling(s) && Left(s) != []
    ensures s.enableIdx < r < |s.reports| && Left(s) == [Subscribe(s.reports[r])] + Subscriptions(s.reports, r + 1)
    ensures OnWrite(s) == Send(s.(enableIdx := r), Subscribe(s.reports[r]))
  {
    var i := s.enableIdx + 1;
    r := NextWithCccd(s.reports, i);
    SubscriptionsFrom(s.reports, i);
    assert r < |s.reports|;
    assert EnableNext(s) == Send(s.(enableIdx := r), Subscribe(s.reports[r]));
  }

  lemma OneAck(s: Session)
    requires Enabling(s)
    ensures var a := OnWrite(s);
            && a.reports == s.reports && a.protoMode == s.protoMode
            && if Left(s) == [] then a.state == Ready && a.attached && a.sent == s.sent
               else && Enabling(a) && a.attached == s.attached
                    && a.sent == s.sent + [Left(s)[0]] && Left(a) == Left(s)[1..]
  {
    if Left(s) == [] {
      LastAck(s);
    } else {
      var r := MoreAck(s);
      assert Left(s)[1..] == Subscriptions(s.reports, r + 1);
    }
  }

  /** Where k acknowledgements lead: what was sent and what is left to send stay the same together. */
  predicate AckedTo(s: Session, k: nat, a: Session)
    requires Enabling(s)
  {
    && a.reports == s.reports && a.protoMode == s.protoMode
    && (if k <= |Left(s)| then Enabling(a) && |Left(a)| == |Left(s)| - k && a.sent + Left(a) == s.sent + Left(s)
        else a.state == Ready && a.attached && a.sent == s.sent + Left(s))
  }

  lemma AckedStep(s: Session, k: nat, a: Session)
    requires Enabling(s) && AckedTo(s, k, a) && -1 <= a.enableIdx
    ensures AckedTo(s, k + 1, OnWrite(a))
  {
    if k <= |Left(s)| {
      OneAck(a);
      if k < |Left(s)| {
        assert a.sent + Left(a) == (a.sent + [Left(a)[0]]) + Left(a)[1..];
      } else {
        assert a.sent + Left(a) == a.sent;
      }
    }
  }

  lemma {:induction false} AckedFromEnable(s: Session, k: nat)
    requires Enabling(s)
    ensures AckedTo(s, k, Acked(s, k))
    decreases k
  {
    if k > 0 {
      AckedFromEnable(s, k - 1);
      AckedStep(s, k - 1, Acked(s, k - 1));
    }
  }

  /**
   Main theorem on subscribing. If enabling begins, then k write responses later
   exactly the first k+1 expected writes have gone out, and after one response per
   expected write the session is Ready and attached with all of them sent once, in
   order. If it does not begin, the session is Ready at once with nothing written.
   */
  lemma SubscribesInOrder(s: Session, k: nat)
    requires -1 <= s.enableIdx
    ensures var a := Acked(StartEnable(s), k);
            if !Begins(s) then a.state == Ready && a.sent == s.sent && a.attached == s.attached
            else if k < |Expected(s)| then a.state == Enable && a.sent == s.sent + Expected(s)[..k + 1]
            else a.state == Ready && a.attached && a.sent == s.sent + Expected(s)
  {
    if Begins(s) {
      BegunInOrder(s, k);
    } else {
      NotBegun(s, k);
    }
  }

  lemma BegunInOrder(s: Session, k: nat)
    requires Begins(s)
    ensures var a := Acked(StartEnable(s), k);
            if k < |Expected(s)| then a.state == Enable && a.sent == s.sent + Expected(s)[..k + 1]
            else a.state == Ready && a.attached && a.sent == s.sent + Expected(s)
  {
    var first := StartIsFirst(s);
    AckedAfterFirst(StartEnable(s), s.sent, first, Expected(s), k);
  }

  lemma AckedAfterFirst(s: Session, base: seq<Octets>, first: Octets, expected: seq<Octets>, k: nat)
    requires Enabling(s) && s.sent == base + [first] && expected == [first] + Left(s)
    ensures var a := Acked(s, k);
            if k < |expected| then a.state == Enable && a.sent == base + expected[..k + 1]
            else a.state == Ready && a.attached && a.sent == base + expected
  {
    var a := Acked(s, k);
    AckedFromEnable(s, k);
    assert (base + [first]) + Left(s) == base + ([first] + Left(s));
    if k < |expected| {
      FrontOf(a.sent, Left(a), base, expected, k + 1);
    }
  }

  lemma FrontOf<T>(a: seq<T>, b: seq<T>, base: seq<T>, whole: seq<T>, n: nat)
    requires a + b == base + whole && n <= |whole| && |b| == |whole| - n
    ensures a == base + whole[..n]
  {
    assert a == (a + b)[..|a|];
    assert (base + whole)[..|base| + n] == base + whole[..n];
  }

  lemma StartIsFirst(s: Session) returns (first: Octets)
    requires Begins(s)
    ensures var s1 := StartEnable(s);
            Enabling(s1) && s1.sent == s.sent + [first] && Expected(s) == [first] + Left(s1)
            && s1.reports == s.reports && s1.protoMode == s.protoMode && s1.attached == s.attached
  {
    first := if s.protoMode != 0 then ModeWrite(s) else Subscribe(s.reports[0]);
    if s.protoMode == 0 {
      assert Subscriptions(s.reports, 0) == [first] + Subscriptions(s.reports, 1);
      assert Expected(s) == Subscriptions(s.reports, 0);
    }
  }

  lemma {:induction false} NotBegun(s: Session, k: nat)
    requires -1 <= s.enableIdx && !Begins(s)
    ensures Acked(StartEnable(s), k) == s.(state := Ready, enableIdx := 0)
  {
    if k > 0 {
      NotBegun(s, k - 1);
    }
  }

  /** So every report with a CCCD gets written exactly when enabling begins or there is nothing to write. */
  lemma WritesAllExactlyWhen(s: Session)
    requires -1 <= s.enableIdx
    ensures Acked(StartEnable(s), |Expected(s)|).sent == s.sent + Expected(s)
            <==> Begins(s) || Expected(s) == []
  {
    SubscribesInOrder(s, |Expected(s)|);
    if !Begins(s) && Expected(s) != [] {
      assert |s.sent + Expected(s)| > |s.sent|;
    } else if Expected(s) == [] {
      assert s.sent + Expected(s) == s.sent;
    }
  }

  // ---------------------------------------------------------------------------
  // End to end
  // ---------------------------------------------------------------------------

  /** Every characteristic's value attribute lies between its declaration and the next one. */
  predicate ValuesFollow(cs: Table) {
    && (forall i | 0 <= i < |cs| :: cs[i].attr.Characteristic? && cs[i].handle < cs[i].attr.value)
    && (forall i, j | 0 <= i < j < |cs| :: cs[i].attr.Characteristic? && cs[i].attr.value < cs[j].handle)
  }

  lemma {:induction false} ReportsAscend(cs: Table)
    requires ValuesFollow(cs)
    ensures AscendingVals(ReportsIn(cs))
    ensures forall r | 0 <= r < |ReportsIn(cs)| :: ReportsIn(cs)[r].cccd == 0
    ensures forall r | 0 <= r < |ReportsIn(cs)| :: cs != [] && ReportsIn(cs)[r].val <= cs[|cs| - 1].attr.value
  {
    if cs != [] {
      var front := cs[..|cs| - 1];
      ReportsAscend(front);
    }
  }

  lemma {:induction false} CccdsAscend(t: Table)
    requires Ascending(t)
    ensures Increasing(CccdsIn(t))
    ensures forall i | 0 <= i < |CccdsIn(t)| :: t != [] && 0 < CccdsIn(t)[i] <= t[|t| - 1].handle
  {
    if t != [] {
      CccdsAscend(t[..|t| - 1]);
    }
  }

  function SubscribeTo(own: seq<u16>): seq<Octets> {
    seq(|own|, r requires 0 <= r < |own| => WriteReq(own[r], [1, 0]))
  }

  lemma {:induction false} SubscriptionsAre(reports: seq<Report>, own: seq<u16>, i: nat)
    requires |own| == |reports| && i <= |own|
    requires forall r | 0 <= r < |own| :: own[r] != 0 && reports[r].cccd == own[r]
    ensures Subscriptions(reports, i) == SubscribeTo(own)[i..]
    decreases |own| - i
  {
    if i < |own| {
      SubscriptionsAre(reports, own, i + 1);
    }
  }

  lemma TakenReports(t: Table, start: u16, end: u16)
    requires Ascending(t) && start <= end && ValuesFollow(CharsOf(t, start, end))
    ensures var reports := Take(ReportsIn(CharsOf(t, start, end)), 8);
            AscendingVals(reports) && forall r | 0 <= r < |reports| :: reports[r].cccd == 0
    ensures var cccds := Take(CccdsIn(Range(t, start, end)), 8);
            Increasing(cccds) && forall i | 0 <= i < |cccds| :: cccds[i] != 0
  {
    ReportsAscend(CharsOf(t, start, end));
    BelowMonotone(t, start, end + 1);
    assert Ascending(Range(t, start, end));
    CccdsAscend(Range(t, start, end));
  }

  /**
   End to end. The session at the end of discovery, with a peer whose reports each
   have their own CCCD among the first eight: once every write is answered the
   client is Ready and attached, and what it sent since is the protocol mode, if the
   table has one, and then a subscription to each report's own CCCD, in handle order.
   */
  lemma SubscribesToOwnCccds(t: Table, s: Session, own: seq<u16>, nextDecl: seq<int>, k: nat)
    requires Conforming(t) && Finished(t, s) && -1 <= s.enableIdx
    requires ValuesFollow(CharsOf(t, s.hidStart, s.hidEnd))
    requires OwnCccds(Take(ReportsIn(CharsOf(t, s.hidStart, s.hidEnd)), 8),
                      Take(CccdsIn(Range(t, s.hidStart, s.hidEnd)), 8), own, nextDecl)
    requires own != [] && k > |own|
    ensures Acked(s, k).state == Ready && Acked(s, k).attached
    ensures EndsWith(Acked(s, k).sent, (if s.protoMode != 0 then [ModeWrite(s)] else []) + SubscribeTo(own))
  {
    var x: Session :| Learnt(t, x) && s == StartEnable(x);
    MappedToOwn(t, x, own, nextDecl);
    BegunInOrder(x, k);
    assert Expected(x) == (if s.protoMode != 0 then [ModeWrite(s)] else []) + SubscribeTo(own);
  }

  predicate EndsWith(s: seq<Octets>, tail: seq<Octets>) {
    |tail| <= |s| && s[|s| - |tail|..] == tail
  }

  lemma MappedToOwn(t: Table, x: Session, own: seq<u16>, nextDecl: seq<int>)
    requires Conforming(t) && Learnt(t, x) && ValuesFollow(CharsOf(t, x.hidStart, x.hidEnd))
    requires OwnCccds(Take(ReportsIn(CharsOf(t, x.hidStart, x.hidEnd)), 8), x.cccds, own, nextDecl)
    requires own != []
    ensures Subscriptions(x.reports, 0) == SubscribeTo(own) && Begins(x)
  {
    var reports := Take(ReportsIn(CharsOf(t, x.hidStart, x.hidEnd)), 8);
    TakenReports(t, x.hidStart, x.hidEnd);
    EveryReportGetsItsOwn(reports, x.cccds, own, nextDecl);
    forall r | 0 <= r < |own|
      ensures own[r] != 0 && x.reports[r].cccd == own[r]
    {
      assert x.reports[r] == reports[r].(cccd := own[r]);
    }
    SubscriptionsAre(x.reports, own, 0);
  }
}
