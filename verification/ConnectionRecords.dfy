/** What the connection table records about a link, against the history of events. */
module ConnectionRecords {
  import opened Bytes
  import opened Connections
  import opened ConnectionNotes

  /** The last link opened on a handle was an LE one. */
  function LastIsLe(evs: seq<Event>, h: u16): bool {
    if evs == [] then false
    else
      var e := evs[|evs| - 1];
      if Opens(e).Some? && Opens(e).value.0 == h then e.Le? else LastIsLe(evs[..|evs| - 1], h)
  }

  predicate Encrypts(e: Event, h: u16) {
    e.Encryption? && |e.p| >= 4 && Rd16(e.p, 1) == h
  }

  /** What the last Encryption Change on a handle said, since a link was last opened on it. */
  function LastEncryption(evs: seq<Event>, h: u16): bool {
    if evs == [] then false
    else
      var e := evs[|evs| - 1];
      if Opens(e).Some? && Opens(e).value.0 == h then false
      else if Encrypts(e, h) then e.p[3] != 0
      else LastEncryption(evs[..|evs| - 1], h)
  }

  predicate Recorded(c: Conn, evs: seq<Event>) {
    c.active ==> c.le == LastIsLe(evs, c.handle) && c.encrypted == LastEncryption(evs, c.handle)
  }

  predicate Records(conns: seq<Conn>, evs: seq<Event>) {
    forall i | 0 <= i < |conns| :: Recorded(conns[i], evs)
  }

  // ---------------------------------------------------------------------------
  // What goes wrong at one event
  // ---------------------------------------------------------------------------

  /** Where a link would land; beyond the table when it finds no room. */
  function Landing(conns: seq<Conn>, e: Event): nat
    requires Opens(e).Some?
  {
    SlotFor(conns, Opens(e).value.1)
  }

  /** The slot found by address keeps an encryption mark the new link has not earned. */
  predicate InheritsMark(conns: seq<Conn>, e: Event) {
    Lands(conns, e) && SlotBase(conns, Opens(e).value.1).encrypted
  }

  /** Another slot still holds the handle, for a link of the other type or an encrypted one. */
  predicate ReusesHandle(conns: seq<Conn>, e: Event) {
    && Opens(e).Some?
    && exists k | 0 <= k < |conns| ::
         && k != Landing(conns, e) && conns[k].active && conns[k].handle == Opens(e).value.0
         && (conns[k].encrypted || conns[k].le != e.Le?)
  }

  /** A second slot on the handle carries the other mark; only the first one is changed. */
  predicate MissesSlot(conns: seq<Conn>, e: Event) {
    && e.Encryption? && |e.p| >= 4
    && exists k | 0 <= k < |conns| ::
         && k != Find(conns, ByHandle(Rd16(e.p, 1))) && conns[k].active && conns[k].handle == Rd16(e.p, 1)
         && conns[k].encrypted != (e.p[3] != 0)
  }

  /** The guard, read off the table before the event. */
  predicate Mis(conns: seq<Conn>, e: Event) {
    InheritsMark(conns, e) || ReusesHandle(conns, e) || MissesSlot(conns, e)
  }

  /** What the history says of a handle after one more event. */
  lemma HistorySnoc(front: seq<Event>, e: Event, h: u16)
    ensures LastIsLe(front + [e], h) == if Opens(e).Some? && Opens(e).value.0 == h then e.Le? else LastIsLe(front, h)
    ensures LastEncryption(front + [e], h)
            == if Opens(e).Some? && Opens(e).value.0 == h then false
               else if Encrypts(e, h) then e.p[3] != 0 else LastEncryption(front, h)
  {
    assert (front + [e])[..|front|] == front;
  }

  lemma OpenRecordsExactlyWhen(t: Table, front: seq<Event>, e: Event)
    requires Records(t.conns, front) && Opens(e).Some?
    ensures Records(Step(t, e).conns, front + [e]) <==> !InheritsMark(t.conns, e) && !ReusesHandle(t.conns, e)
  {
    var after, evs := Step(t, e).conns, front + [e];
    var i := Landing(t.conns, e);
    forall k | 0 <= k < |t.conns|
      ensures Recorded(t.conns[k], evs)
              <==> !(t.conns[k].active && t.conns[k].handle == Opens(e).value.0
                     && (t.conns[k].encrypted || t.conns[k].le != e.Le?))
    {
      HistorySnoc(front, e, t.conns[k].handle);
    }
    if Lands(t.conns, e) {
      var _, c := LandedSlot(t, e);
      HistorySnoc(front, e, c.handle);
      assert after[i] == c;
      assert Recorded(c, evs) <==> !InheritsMark(t.conns, e);
    } else {
      QuietEvent(t, e);
    }
    assert forall k | 0 <= k < |after| && k != i :: after[k] == t.conns[k];
  }

  lemma EncryptionRecordsExactlyWhen(t: Table, front: seq<Event>, p: seq<byte>)
    requires Records(t.conns, front) && |p| >= 4
    ensures Records(OnEncryption(t, p).conns, front + [Encryption(p)]) <==> !MissesSlot(t.conns, Encryption(p))
  {
    var after, evs, h := OnEncryption(t, p).conns, front + [Encryption(p)], Rd16(p, 1);
    var i := MarkedSlot(t, p);
    forall k | 0 <= k < |t.conns|
      ensures Recorded(t.conns[k], evs)
              <==> !(t.conns[k].active && t.conns[k].handle == h && t.conns[k].encrypted != (p[3] != 0))
    {
      HistorySnoc(front, Encryption(p), t.conns[k].handle);
    }
    HistorySnoc(front, Encryption(p), h);
    assert i < |t.conns| ==> Recorded(after[i], evs);
    assert forall k | 0 <= k < |after| && k != i :: after[k] == t.conns[k];
  }

  lemma OthersAreRecorded(t: Table, front: seq<Event>, e: Event)
    requires Records(t.conns, front) && Opens(e).None? && !(e.Encryption? && |e.p| >= 4)
    ensures Records(Step(t, e).conns, front + [e])
  {
    forall k | 0 <= k < |t.conns|
      ensures Recorded(t.conns[k], front + [e])
    {
      HistorySnoc(front, e, t.conns[k].handle);
    }
    if Closes(e).Some? {
      var i := ClosedSlot(t, e);
    } else if !e.Encryption? {
      QuietEvent(t, e);
    }
  }

  lemma StepRecordsExactlyWhen(t: Table, front: seq<Event>, e: Event)
    requires Records(t.conns, front)
    ensures Records(Step(t, e).conns, front + [e]) <==> !Mis(t.conns, e)
  {
    if Opens(e).Some? {
      OpenRecordsExactlyWhen(t, front, e);
    } else if e.Encryption? && |e.p| >= 4 {
      EncryptionRecordsExactlyWhen(t, front, e.p);
    } else {
      OthersAreRecorded(t, front, e);
    }
  }

  // ---------------------------------------------------------------------------
  // Whole runs
  // ---------------------------------------------------------------------------

  predicate AlwaysRecords(evs: seq<Event>) {
    Records(Run(evs).conns, evs) && (evs == [] || AlwaysRecords(evs[..|evs| - 1]))
  }

  predicate NeverMis(evs: seq<Event>) {
    evs == [] || (NeverMis(evs[..|evs| - 1]) && !Mis(Run(evs[..|evs| - 1]).conns, evs[|evs| - 1]))
  }

  /**
   Main theorem, for every run whatever the controller does: at every moment each active
   slot has the link type it was opened with and is encrypted exactly as the last
   Encryption Change since then said, if and only if no event ever meets the guard.
   */
  lemma {:induction false} RecordsExactlyWhen(evs: seq<Event>)
    ensures AlwaysRecords(evs) <==> NeverMis(evs)
  {
    if evs != [] {
      var front, e := evs[..|evs| - 1], evs[|evs| - 1];
      RecordsExactlyWhen(front);
      if AlwaysRecords(front) {
        assert Records(Run(front).conns, front);
        StepRecordsExactlyWhen(Run(front), front, e);
        assert evs == front + [e];
      }
    }
  }

  /** Distinct peers and a map from handles to peers make handles distinct. */
  lemma DistinctHandles(conns: seq<Conn>, live: map<u16, Addr>)
    requires Sound(conns, live) && DistinctPeers(conns)
    ensures forall i, j | 0 <= i < j < |conns| && conns[i].active && conns[j].active ::
              conns[i].handle != conns[j].handle
  {
    forall i, j | 0 <= i < j < |conns| && conns[i].active && conns[j].active
      ensures conns[i].handle != conns[j].handle
    {
      assert conns[i].peer != conns[j].peer;
    }
  }

  lemma FirstHolderIsOnly(conns: seq<Conn>, h: u16, k: nat)
    requires forall i, j | 0 <= i < j < |conns| && conns[i].active && conns[j].active ::
               conns[i].handle != conns[j].handle
    requires k < |conns| && conns[k].active && conns[k].handle == h
    ensures k == Find(conns, ByHandle(h))
  {
    assert Matches(conns[k], ByHandle(h));
  }

  lemma ConsistentEventIsRight(conns: seq<Conn>, live: map<u16, Addr>, e: Event)
    requires Sound(conns, live) && DistinctPeers(conns)
    requires Opens(e).Some? ==> Unused(live, Opens(e).value.0, Opens(e).value.1)
    ensures !Mis(conns, e)
  {
    if Opens(e).Some? {
      FreshSlot(conns, live, Opens(e).value.0, Opens(e).value.1);
    } else if e.Encryption? && |e.p| >= 4 {
      DistinctHandles(conns, live);
      forall k | 0 <= k < |conns| && conns[k].active && conns[k].handle == Rd16(e.p, 1)
        ensures k == Find(conns, ByHandle(Rd16(e.p, 1)))
      {
        FirstHolderIsOnly(conns, Rd16(e.p, 1), k);
      }
    }
  }

  /** A controller that reuses neither live handles nor connected addresses never meets the guard. */
  lemma {:induction false} SlotsRecordTheirLinks(evs: seq<Event>)
    requires Consistent(evs)
    ensures Sound(Run(evs).conns, Live(evs)) && NeverMis(evs) && AlwaysRecords(evs)
  {
    TableMatchesController(evs, 0);
    if evs != [] {
      var front, e := evs[..|evs| - 1], evs[|evs| - 1];
      SlotsRecordTheirLinks(front);
      PeersStayDistinct(front);
      ConsistentEventIsRight(Run(front).conns, Live(front), e);
    }
    RecordsExactlyWhen(evs);
  }

  // ---------------------------------------------------------------------------
  // Runs that go wrong
  // ---------------------------------------------------------------------------

  lemma MisBreaks(front: seq<Event>, e: Event)
    requires Mis(Run(front).conns, e)
    ensures !AlwaysRecords(front + [e])
  {
    assert (front + [e])[..|front|] == front;
    RecordsExactlyWhen(front + [e]);
  }

  /** A second link to a connected, encrypted address takes over the slot with its mark. */
  lemma SecondLinkInheritsEncryption(front: seq<Event>, e: Event, h: u16, a: Addr, i: nat)
    requires LinkTo(e, h, a) && i == Find(Run(front).conns, ByAddr(a)) < |Run(front).conns|
    requires Run(front).conns[i].encrypted
    ensures !AlwaysRecords(front + [e])
  {
    MisBreaks(front, e);
  }

  /** A handle opened again for a link of the other type, from the empty table, to two addresses. */
  lemma ReusedHandleMisrecords(e1: Event, e2: Event, h: u16, a: Addr, b: Addr)
    requires LinkTo(e1, h, a) && LinkTo(e2, h, b) && a != b && e1.Le? != e2.Le?
    ensures !AlwaysRecords([e1] + [e2])
  {
    FindsRoom(EMPTY.conns, a);
    var i, c := LandedSlot(EMPTY, e1);
    assert [e1][..0] == [] && Run([e1]) == Step(EMPTY, e1);
    var conns := Run([e1]).conns;
    assert conns[i] == c && c.active && c.peer != b;
    var j := SlotFor(conns, b);
    assert j != i by {
      assert !Matches(conns[i], ByAddr(b)) && !Matches(conns[i], Free);
    }
    MisBreaks([e1], e2);
  }

  /** The handle of a held link opened again for the other type while the table has no room. */
  lemma OverflowMisrecords(front: seq<Event>, e: Event, k: nat)
    requires Opens(e).Some? && !Lands(Run(front).conns, e) && k < |Run(front).conns|
    requires var c := Run(front).conns[k]; c.active && c.handle == Opens(e).value.0 && c.le != e.Le?
    ensures !AlwaysRecords(front + [e])
  {
    MisBreaks(front, e);
  }
}
