/** When the up and down notifications of a handle alternate. */
module ConnectionNotes {
  import opened Bytes
  import opened Connections

  function NotesFor(notes: seq<Note>, h: u16): seq<bool> {
    if notes == [] then []
    else NotesFor(notes[..|notes| - 1], h) + if notes[|notes| - 1].handle == h then [notes[|notes| - 1].up] else []
  }

  /** up, down, up, down, ... */
  predicate Alternates(s: seq<bool>) {
    forall i | 0 <= i < |s| :: s[i] == (i % 2 == 0)
  }

  predicate IsUp(conns: seq<Conn>, h: u16) {
    exists i | 0 <= i < |conns| :: conns[i].active && conns[i].handle == h
  }

  predicate AtMostOne(conns: seq<Conn>, h: u16) {
    forall i, j | 0 <= i < j < |conns| && conns[i].active && conns[j].active ::
      !(conns[i].handle == h == conns[j].handle)
  }

  // ---------------------------------------------------------------------------
  // The exact condition
  // ---------------------------------------------------------------------------

  predicate OpensOn(conns: seq<Conn>, e: Event, h: u16) {
    Lands(conns, e) && Opens(e).value.0 == h
  }

  predicate ClosesOn(conns: seq<Conn>, e: Event, h: u16) {
    Closes(e) == Some(h) && IsUp(conns, h)
  }

  /** A link has landed on h and none held on h has been disconnected since. */
  function Outstanding(evs: seq<Event>, h: u16): bool {
    if evs == [] then false
    else
      var front, e := evs[..|evs| - 1], evs[|evs| - 1];
      var conns := Run(front).conns;
      OpensOn(conns, e, h) || (Outstanding(front, h) && !ClosesOn(conns, e, h))
  }

  /** No link lands on h while one is outstanding there. */
  predicate NeverDoubles(evs: seq<Event>, h: u16) {
    evs == [] ||
    (&& NeverDoubles(evs[..|evs| - 1], h)
     && !(OpensOn(Run(evs[..|evs| - 1]).conns, evs[|evs| - 1], h) && Outstanding(evs[..|evs| - 1], h)))
  }

  lemma NotesForSnoc(notes: seq<Note>, n: Note, h: u16)
    ensures NotesFor(notes + [n], h) == NotesFor(notes, h) + if n.handle == h then [n.up] else []
  {
    assert (notes + [n])[..|notes|] == notes;
  }

  /** What one event adds to the notifications of h. */
  function Added(conns: seq<Conn>, e: Event, h: u16): seq<bool> {
    if OpensOn(conns, e, h) then [true] else if ClosesOn(conns, e, h) then [false] else []
  }

  lemma HeldIsFound(conns: seq<Conn>, h: u16)
    ensures IsUp(conns, h) <==> Find(conns, ByHandle(h)) < |conns|
  {
    var i := Find(conns, ByHandle(h));
    if i < |conns| {
      assert Matches(conns[i], ByHandle(h));
    } else {
      assert forall k | 0 <= k < |conns| :: !Matches(conns[k], ByHandle(h));
    }
  }

  lemma NotesOfClosing(t: Table, e: Event, h: u16)
    requires Closes(e).Some?
    ensures NotesFor(Step(t, e).notes, h) == NotesFor(t.notes, h) + Added(t.conns, e, h)
  {
    var i := ClosedSlot(t, e);
    HeldIsFound(t.conns, Closes(e).value);
    if i < |t.conns| {
      NotesForSnoc(t.notes, Note(Closes(e).value, false), h);
    } else {
      assert t.notes + [] == t.notes;
    }
  }

  lemma NotesOfStep(t: Table, e: Event, h: u16)
    ensures NotesFor(Step(t, e).notes, h) == NotesFor(t.notes, h) + Added(t.conns, e, h)
  {
    if Lands(t.conns, e) {
      var i, c := LandedSlot(t, e);
      NotesForSnoc(t.notes, Note(c.handle, true), h);
    } else if Closes(e).Some? {
      NotesOfClosing(t, e, h);
    } else {
      OtherEvent(t, e);
    }
  }

  predicate LastIsUp(s: seq<bool>) {
    s != [] && s[|s| - 1]
  }

  lemma {:induction false} OutstandingIsLastUp(evs: seq<Event>, h: u16)
    ensures Outstanding(evs, h) <==> LastIsUp(NotesFor(Run(evs).notes, h))
  {
    if evs != [] {
      var front, e := evs[..|evs| - 1], evs[|evs| - 1];
      OutstandingIsLastUp(front, h);
      NotesOfStep(Run(front), e, h);
      LastOf(NotesFor(Run(front).notes, h), Added(Run(front).conns, e, h));
    }
  }

  lemma LastOf(s: seq<bool>, added: seq<bool>)
    requires |added| <= 1
    ensures LastIsUp(s + added) <==> if added == [] then LastIsUp(s) else added[0]
  {
    assert s + [] == s;
  }

  lemma AlternatesSnoc(s: seq<bool>, up: bool)
    ensures Alternates(s + [up]) <==> Alternates(s) && up != LastIsUp(s)
  {
    var r := s + [up];
    assert forall i | 0 <= i < |s| :: r[i] == s[i];
    assert r[|s|] == up;
  }

  /** At most one slot holds h, and only while a link is outstanding on it. */
  predicate Accounted(evs: seq<Event>, h: u16) {
    AtMostOne(Run(evs).conns, h) && (IsUp(Run(evs).conns, h) ==> Outstanding(evs, h))
  }

  lemma LandingAccounted(conns: seq<Conn>, i: nat, c: Conn, h: u16)
    requires i < |conns| && AtMostOne(conns, h) && (c.handle == h ==> !IsUp(conns, h))
    ensures AtMostOne(conns[i := c], h)
    ensures IsUp(conns[i := c], h) ==> c.handle == h || IsUp(conns, h)
  {
    var after := conns[i := c];
    if c.handle != h && IsUp(after, h) {
      var k :| 0 <= k < |after| && after[k].active && after[k].handle == h;
      assert conns[k].active && conns[k].handle == h;
    }
    if c.handle == h {
      assert forall k | 0 <= k < |conns| && conns[k].active :: conns[k].handle != h;
    }
  }

  lemma ClosingAccounted(conns: seq<Conn>, i: nat, h: u16, g: u16)
    requires i == Find(conns, ByHandle(g)) < |conns| && AtMostOne(conns, h)
    ensures var after := conns[i := conns[i].(active := false, handle := NO_HANDLE)];
            AtMostOne(after, h) && (IsUp(after, h) ==> h != g && IsUp(conns, h))
  {
    var after := conns[i := conns[i].(active := false, handle := NO_HANDLE)];
    if IsUp(after, h) {
      var k :| 0 <= k < |after| && after[k].active && after[k].handle == h;
      assert k != i && conns[k].active && conns[k].handle == h;
    }
  }

  lemma SameLinksAccounted(a: seq<Conn>, b: seq<Conn>, h: u16)
    requires SameLinks(a, b) && AtMostOne(a, h)
    ensures AtMostOne(b, h) && (IsUp(a, h) <==> IsUp(b, h))
  {
    if IsUp(a, h) {
      var k :| 0 <= k < |a| && a[k].active && a[k].handle == h;
      assert b[k].active;
    }
    if IsUp(b, h) {
      var k :| 0 <= k < |b| && b[k].active && b[k].handle == h;
      assert a[k].active;
    }
  }

  lemma StepAccounted(front: seq<Event>, e: Event, h: u16)
    requires Accounted(front, h) && !(OpensOn(Run(front).conns, e, h) && Outstanding(front, h))
    ensures Accounted(front + [e], h)
  {
    var t, evs := Run(front), front + [e];
    assert evs[..|evs| - 1] == front;
    assert Run(evs) == Step(t, e);
    if Lands(t.conns, e) {
      var i, c := LandedSlot(t, e);
      LandingAccounted(t.conns, i, c, h);
    } else if Closes(e).Some? {
      var i := ClosedSlot(t, e);
      if i < |t.conns| {
        ClosingAccounted(t.conns, i, h, Closes(e).value);
      } else {
        HeldIsFound(t.conns, Closes(e).value);
      }
    } else {
      OtherEvent(t, e);
      SameLinksAccounted(t.conns, Step(t, e).conns, h);
    }
  }

  lemma {:induction false} NeverDoubledAccounted(evs: seq<Event>, h: u16)
    requires NeverDoubles(evs, h)
    ensures Accounted(evs, h)
  {
    if evs != [] {
      var front, e := evs[..|evs| - 1], evs[|evs| - 1];
      NeverDoubledAccounted(front, h);
      assert evs == front + [e];
      StepAccounted(front, e, h);
    }
  }

  /**
   Main theorem, for every run of events whatever the controller does: the notifications
   of a handle are up, down, up, down, starting with up, if and only if no link ever
   lands on it while one is outstanding there.
   */
  lemma {:induction false} AlternatesExactlyWhen(evs: seq<Event>, h: u16)
    ensures Alternates(NotesFor(Run(evs).notes, h)) <==> NeverDoubles(evs, h)
  {
    if evs != [] {
      var front, e := evs[..|evs| - 1], evs[|evs| - 1];
      var t := Run(front);
      var was := NotesFor(t.notes, h);
      AlternatesExactlyWhen(front, h);
      OutstandingIsLastUp(front, h);
      NotesOfStep(t, e, h);
      if OpensOn(t.conns, e, h) {
        AlternatesSnoc(was, true);
      } else if ClosesOn(t.conns, e, h) {
        AlternatesSnoc(was, false);
        if NeverDoubles(front, h) {
          NeverDoubledAccounted(front, h);
        }
      } else {
        assert was + [] == was;
      }
    }
  }

  // ---------------------------------------------------------------------------
  // A controller that does not reuse live handles or addresses
  // ---------------------------------------------------------------------------

  /** The controller's own view; a Disconnection Complete that reports failure leaves the link up. */
  function Live(evs: seq<Event>): map<u16, Addr> {
    if evs == [] then map[]
    else
      var live, e := Live(evs[..|evs| - 1]), evs[|evs| - 1];
      if Opens(e).Some? then live[Opens(e).value.0 := Opens(e).value.1]
      else if e.Gone? && |e.p| >= 4 && e.p[0] == 0 then live - {Rd16(e.p, 1)}
      else live
  }

  /** A new link may use neither a live handle nor a connected address. */
  predicate Unused(live: map<u16, Addr>, h: u16, a: Addr) {
    h !in live && forall k <- live :: live[k] != a
  }

  predicate Consistent(evs: seq<Event>) {
    evs == [] ||
    (&& Consistent(evs[..|evs| - 1])
     && (Opens(evs[|evs| - 1]).Some? ==>
           Unused(Live(evs[..|evs| - 1]), Opens(evs[|evs| - 1]).value.0, Opens(evs[|evs| - 1]).value.1)))
  }

  /** Every active slot is a link the controller has, under its own address. */
  predicate Sound(conns: seq<Conn>, live: map<u16, Addr>) {
    forall i | 0 <= i < |conns| && conns[i].active ::
      conns[i].handle in live && live[conns[i].handle] == conns[i].peer
  }

  lemma FreshSlot(conns: seq<Conn>, live: map<u16, Addr>, h: u16, a: Addr)
    requires Sound(conns, live) && Unused(live, h, a)
    ensures Find(conns, ByAddr(a)) == |conns|
    ensures !IsUp(conns, h)
  {
  }

  lemma ClosingSound(conns: seq<Conn>, live: map<u16, Addr>, i: nat, g: u16)
    requires Sound(conns, live) && DistinctPeers(conns) && i == Find(conns, ByHandle(g)) <= |conns|
    ensures var after := if i == |conns| then conns else conns[i := conns[i].(active := false, handle := NO_HANDLE)];
            Sound(after, live) && Sound(after, live - {g})
  {
    var after := if i == |conns| then conns else conns[i := conns[i].(active := false, handle := NO_HANDLE)];
    forall k | 0 <= k < |after| && after[k].active
      ensures conns[k] == after[k] && conns[k].handle != g
    {
      assert conns[k] == after[k];
      if i < |conns| {
        assert conns[i].active && conns[k].peer != conns[i].peer;
      } else {
        assert !Matches(conns[k], ByHandle(g));
      }
    }
  }

  lemma StepKeepsSound(t: Table, e: Event, live: map<u16, Addr>)
    requires |t.conns| == SLOTS && DistinctPeers(t.conns) && Sound(t.conns, live)
    requires Opens(e).Some? ==> Unused(live, Opens(e).value.0, Opens(e).value.1)
    ensures Sound(Step(t, e).conns,
                  if Opens(e).Some? then live[Opens(e).value.0 := Opens(e).value.1]
                  else if e.Gone? && |e.p| >= 4 && e.p[0] == 0 then live - {Rd16(e.p, 1)} else live)
  {
    if Lands(t.conns, e) {
      var i, c := LandedSlot(t, e);
    } else if Closes(e).Some? {
      var i := ClosedSlot(t, e);
      ClosingSound(t.conns, live, i, Closes(e).value);
    } else {
      OtherEvent(t, e);
    }
  }

  /** A landing in a fresh slot and a hang-up touch no other link. */
  lemma StepKeepsHeld(front: seq<Event>, e: Event, h: u16)
    requires var conns := Run(front).conns; |conns| == SLOTS && Sound(conns, Live(front))
    requires Opens(e).Some? ==> Unused(Live(front), Opens(e).value.0, Opens(e).value.1)
    requires Outstanding(front, h) ==> IsUp(Run(front).conns, h)
    ensures Outstanding(front + [e], h) ==> IsUp(Run(front + [e]).conns, h)
  {
    var t, evs := Run(front), front + [e];
    assert evs[..|evs| - 1] == front;
    assert Run(evs) == Step(t, e);
    if Outstanding(evs, h) {
      if Lands(t.conns, e) {
        var i, c := LandedSlot(t, e);
        FreshSlot(t.conns, Live(front), c.handle, c.peer);
        assert !t.conns[i].active && Step(t, e).conns[i] == c;
        if c.handle != h {
          var k :| 0 <= k < |t.conns| && t.conns[k].active && t.conns[k].handle == h;
          assert Step(t, e).conns[k] == t.conns[k];
        }
      } else if Closes(e).Some? {
        var i := ClosedSlot(t, e);
        var k :| 0 <= k < |t.conns| && t.conns[k].active && t.conns[k].handle == h;
        assert Closes(e).value != h;
        assert Step(t, e).conns[k] == t.conns[k];
      } else {
        OtherEvent(t, e);
        var k :| 0 <= k < |t.conns| && t.conns[k].active && t.conns[k].handle == h;
        assert Step(t, e).conns[k].active;
      }
    }
  }

  /** In a consistent run the table holds only live links, and exactly the outstanding ones. */
  lemma {:induction false} TableMatchesController(evs: seq<Event>, h: u16)
    requires Consistent(evs)
    ensures Sound(Run(evs).conns, Live(evs)) && NeverDoubles(evs, h)
    ensures IsUp(Run(evs).conns, h) <==> Outstanding(evs, h)
  {
    if evs != [] {
      var front, e := evs[..|evs| - 1], evs[|evs| - 1];
      assert evs == front + [e];
      TableMatchesController(front, h);
      PeersStayDistinct(front);
      StepKeepsSound(Run(front), e, Live(front));
      StepKeepsHeld(front, e, h);
      if OpensOn(Run(front).conns, e, h) {
        FreshSlot(Run(front).conns, Live(front), h, Opens(e).value.1);
      }
      NeverDoubledAccounted(evs, h);
    }
  }

  /**
   So if the controller never opens a link on a live handle or to a connected address,
   notifications alternate for every handle, also when the table overflows or a
   disconnection is reported failed; and the last one is up exactly while the table
   holds the link.
   */
  lemma NotificationsAlternate(evs: seq<Event>, h: u16)
    requires Consistent(evs)
    ensures var notes := NotesFor(Run(evs).notes, h);
            Alternates(notes) && (IsUp(Run(evs).conns, h) <==> LastIsUp(notes))
  {
    TableMatchesController(evs, h);
    AlternatesExactlyWhen(evs, h);
    OutstandingIsLastUp(evs, h);
  }

  // ---------------------------------------------------------------------------
  // A run that breaks it
  // ---------------------------------------------------------------------------

  /** A successful link of either type to an address, on a handle. */
  predicate LinkTo(e: Event, h: u16, a: Addr) {
    Opens(e) == Some((h, a))
  }

  predicate IsHeld(conns: seq<Conn>, a: Addr) {
    exists i | 0 <= i < |conns| :: Matches(conns[i], ByAddr(a))
  }

  lemma FindsRoom(conns: seq<Conn>, a: Addr)
    requires IsHeld(conns, a) || conns == EMPTY.conns
    ensures SlotFor(conns, a) < |conns|
  {
    if !IsHeld(conns, a) {
      assert Matches(conns[0], Free);
    }
  }

  lemma NextLanding(front: seq<Event>, e: Event, h: u16, a: Addr)
    requires LinkTo(e, h, a) && (IsHeld(Run(front).conns, a) || front == [])
    ensures OpensOn(Run(front).conns, e, h) && IsHeld(Run(front + [e]).conns, a)
    ensures Outstanding(front + [e], h)
    ensures forall g | Outstanding(front, g) :: Outstanding(front + [e], g)
  {
    var t, evs := Run(front), front + [e];
    assert evs[..|evs| - 1] == front;
    FindsRoom(t.conns, a);
    var i, c := LandedSlot(t, e);
    assert Run(evs).conns[i] == c && Matches(c, ByAddr(a));
  }

  /**
   Three links to one address, of whatever types, the third on the first one's handle,
   at the start or while the address is connected: the slot is found by address alone,
   so the first link is never announced down and its handle is announced up twice.
   */
  lemma SecondLinkBreaksAlternation(front: seq<Event>, e1: Event, e2: Event, e3: Event, h: u16, g: u16, a: Addr)
    requires front == [] || IsHeld(Run(front).conns, a)
    requires LinkTo(e1, h, a) && LinkTo(e2, g, a) && LinkTo(e3, h, a)
    ensures !Alternates(NotesFor(Run(front + [e1] + [e2] + [e3]).notes, h))
  {
    var r1 := front + [e1];
    var r2 := r1 + [e2];
    var r3 := r2 + [e3];
    NextLanding(front, e1, h, a);
    NextLanding(r1, e2, g, a);
    NextLanding(r2, e3, h, a);
    assert r3[..|r3| - 1] == r2;
    AlternatesExactlyWhen(r3, h);
  }
}
