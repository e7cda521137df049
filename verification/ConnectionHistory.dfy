/**
 What each slot, the paging state and the two logs hold, read off the history of events:
 for every run, whatever the controller does.
 */
module ConnectionHistory {
  import opened Bytes
  import opened Connections

  // ---------------------------------------------------------------------------
  // The history
  // ---------------------------------------------------------------------------

  /** The address being paged: from `Page(a)` until a classic link to it lands. */
  function Paged(evs: seq<Event>): Option<Addr> {
    if evs == [] then None
    else
      var front, e := evs[..|evs| - 1], evs[|evs| - 1];
      if e.Page? then Some(e.addr)
      else if e.Classic? && Lands(Run(front).conns, e) && Paged(front) == Some(e.p[3..9]) then None
      else Paged(front)
  }

  /** The handles of the classic links that landed, in order. */
  function ClassicLandings(evs: seq<Event>): seq<u16> {
    if evs == [] then []
    else
      var front, e := evs[..|evs| - 1], evs[|evs| - 1];
      ClassicLandings(front) + if e.Classic? && Lands(Run(front).conns, e) then [Rd16(e.p, 1)] else []
  }

  /** The Encryption Changes of at least four bytes: handle, and the byte after it. */
  function EncryptionChanges(evs: seq<Event>): seq<Change> {
    if evs == [] then []
    else
      var front, e := evs[..|evs| - 1], evs[|evs| - 1];
      EncryptionChanges(front) + if e.Encryption? && |e.p| >= 4 then [Change(Rd16(e.p, 1), e.p[3])] else []
  }

  /** The number of the event that last landed in a slot. */
  function LastLanding(evs: seq<Event>, i: nat): Option<nat> {
    if evs == [] then None
    else
      var front, e := evs[..|evs| - 1], evs[|evs| - 1];
      if Lands(Run(front).conns, e) && SlotFor(Run(front).conns, Opens(e).value.1) == i then Some(|front|)
      else LastLanding(front, i)
  }

  /** The peer address type of a slot: byte 5 of its last LE link, until the slot is filled anew. */
  function PeerType(evs: seq<Event>, i: nat): byte {
    if evs == [] then 0
    else
      var front, e := evs[..|evs| - 1], evs[|evs| - 1];
      var conns := Run(front).conns;
      if Lands(conns, e) && SlotFor(conns, Opens(e).value.1) == i then
        if e.Le? then e.p[5] else if conns[i].active then PeerType(front, i) else 0
      else PeerType(front, i)
  }

  /** What the landing of event e after `front` writes into its slot. */
  predicate WrittenBy(c: Conn, front: seq<Event>, e: Event) {
    && Opens(e) == Some((c.handle, c.peer))
    && match e
       case Classic(p) => !c.le && (c.role == 0 <==> Paged(front) == Some(p[3..9])) && c.role <= 1
       case Le(p) => c.le && (c.role == 0 <==> p[4] == 0) && c.role <= 1
       case _ => false
  }

  /** Every active slot holds what its last landing wrote. */
  predicate Written(conns: seq<Conn>, evs: seq<Event>) {
    forall i | 0 <= i < |conns| && conns[i].active ::
      && LastLanding(evs, i).Some? && LastLanding(evs, i).value < |evs|
      && WrittenBy(conns[i], evs[..LastLanding(evs, i).value], evs[LastLanding(evs, i).value])
      && conns[i].peerType == PeerType(evs, i)
  }

  // ---------------------------------------------------------------------------
  // One event
  // ---------------------------------------------------------------------------

  lemma PagingAndLogs(front: seq<Event>, e: Event)
    requires Run(front).paging == Paged(front) && Run(front).auths == ClassicLandings(front)
    requires Run(front).changes == EncryptionChanges(front)
    ensures var t := Step(Run(front), e);
            && t.paging == Paged(front + [e]) && t.auths == ClassicLandings(front + [e])
            && t.changes == EncryptionChanges(front + [e])
  {
    assert (front + [e])[..|front|] == front;
    assert ClassicLandings(front) + [] == ClassicLandings(front);
    assert EncryptionChanges(front) + [] == EncryptionChanges(front);
  }

  lemma ClassicLands(t: Table, p: seq<byte>)
    requires Lands(t.conns, Classic(p))
    ensures var i := SlotFor(t.conns, p[3..9]);
            var c := OnClassic(t, p).conns[i];
            && c.role == (if t.paging == Some(p[3..9]) then 0 else 1)
            && c.peerType == if t.conns[i].active then t.conns[i].peerType else 0
  {
  }

  lemma LeLands(t: Table, p: seq<byte>)
    requires Lands(t.conns, Le(p))
    ensures var c := OnLe(t, p).conns[SlotFor(t.conns, p[6..12])];
            c.role == (if p[4] == 0 then 0 else 1) && c.peerType == p[5]
  {
  }

  lemma LandingWrites(front: seq<Event>, e: Event) returns (i: nat, c: Conn)
    requires Lands(Run(front).conns, e) && Run(front).paging == Paged(front)
    ensures i == SlotFor(Run(front).conns, Opens(e).value.1) < |Run(front).conns|
    ensures Step(Run(front), e).conns == Run(front).conns[i := c] && WrittenBy(c, front, e)
    ensures c.peerType == if e.Le? then e.p[5]
                          else if Run(front).conns[i].active then Run(front).conns[i].peerType else 0
  {
    var t := Run(front);
    i, c := LandedSlot(t, e);
    assert Step(t, e).conns[i] == c;
    if e.Classic? {
      ClassicLands(t, e.p);
    } else {
      LeLands(t, e.p);
    }
  }

  lemma WrittenStays(c: Conn, front: seq<Event>, e: Event, i: nat)
    requires LastLanding(front, i).Some? && LastLanding(front, i).value < |front|
    requires !(Lands(Run(front).conns, e) && SlotFor(Run(front).conns, Opens(e).value.1) == i)
    ensures LastLanding(front + [e], i) == LastLanding(front, i) && PeerType(front + [e], i) == PeerType(front, i)
    ensures var n := LastLanding(front, i).value; (front + [e])[..n] == front[..n] && (front + [e])[n] == front[n]
  {
    assert (front + [e])[..|front|] == front;
  }

  /** A slot the event does not land in keeps the fields that landing wrote while it stays active. */
  lemma OtherSlots(t: Table, e: Event, i: nat)
    requires i < |t.conns| && !(Lands(t.conns, e) && SlotFor(t.conns, Opens(e).value.1) == i)
    ensures |Step(t, e).conns| == |t.conns|
    ensures var c, d := t.conns[i], Step(t, e).conns[i];
            d.active ==> c.active && d == c.(encrypted := d.encrypted)
  {
    if Lands(t.conns, e) {
      var j, c := LandedSlot(t, e);
    } else if Closes(e).Some? {
      var j := ClosedSlot(t, e);
    } else if e.Encryption? {
      if |e.p| >= 4 {
        var j := MarkedSlot(t, e.p);
      }
    } else {
      QuietEvent(t, e);
    }
  }

  lemma StepWrites(front: seq<Event>, e: Event)
    requires Written(Run(front).conns, front) && Run(front).paging == Paged(front) && |Run(front).conns| == SLOTS
    ensures Written(Step(Run(front), e).conns, front + [e])
  {
    var t, all := Run(front), front + [e];
    var after := Step(t, e).conns;
    assert all[..|front|] == front && all[|front|] == e;
    StepKeepsSize(t, e);
    forall i | 0 <= i < |after| && after[i].active
      ensures LastLanding(all, i).Some? && LastLanding(all, i).value < |all|
              && WrittenBy(after[i], all[..LastLanding(all, i).value], all[LastLanding(all, i).value])
              && after[i].peerType == PeerType(all, i)
    {
      if Lands(t.conns, e) && SlotFor(t.conns, Opens(e).value.1) == i {
        var j, c := LandingWrites(front, e);
      } else {
        OtherSlots(t, e, i);
        WrittenStays(after[i], front, e, i);
      }
    }
  }

  lemma StepKeepsSize(t: Table, e: Event)
    requires |t.conns| == SLOTS
    ensures |Step(t, e).conns| == SLOTS
  {
  }

  /**
   Main theorem, for every run of events whatever the controller does. The paging state is
   the page still outstanding; authentication has been requested for exactly the classic
   links that landed, in order; the encryption observers were told of exactly the changes.
   Every active slot has the handle and peer of the link that last landed in it, role 0
   exactly when that answered an outstanding page or was an LE link with role byte 0, and
   the peer address type of the last LE link since the slot was filled for a new peer.
   */
  lemma {:induction false} TableIsItsHistory(evs: seq<Event>)
    ensures var t := Run(evs);
            && |t.conns| == 8 && Written(t.conns, evs)
            && t.paging == Paged(evs) && t.auths == ClassicLandings(evs) && t.changes == EncryptionChanges(evs)
  {
    if evs != [] {
      var front, e := evs[..|evs| - 1], evs[|evs| - 1];
      TableIsItsHistory(front);
      assert evs == front + [e];
      StepKeepsSize(Run(front), e);
      PagingAndLogs(front, e);
      StepWrites(front, e);
    }
  }

  /** Where the events carry handle, address, role and status (sections 7.7.3, 7.7.5 and 7.7.65.1). */
  lemma EventLayouts(status: byte, h: u16, role: byte, kind: byte, a: Addr, rest: seq<byte>)
    requires |a| == 6
    ensures |rest| == 2 ==>
              Opens(Classic([status] + Le16(h) + a + rest)) == if status == 0 then Some((h, a)) else None
    ensures |rest| == 6 ==>
              var le := Le([0x01, status] + Le16(h) + [role, kind] + a + rest);
              le.p[4] == role && le.p[5] == kind && Opens(le) == if status == 0 then Some((h, a)) else None
    ensures Closes(Gone([status] + Le16(h) + [role])) == Some(h)
  {
    var c := [status] + Le16(h) + a + rest;
    assert c[3..9] == a;
    var l := [0x01, status] + Le16(h) + [role, kind] + a + rest;
    assert l[6..12] == a;
  }
}
