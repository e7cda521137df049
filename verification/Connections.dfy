/**
 The connection table: eight slots, filled by connection-complete events of both
 link types, emptied by Disconnection Complete, with up and down notifications.
 */
module Connections {
  import opened Bytes

  const SLOTS := 8
  const NO_HANDLE: u16 := 0xFFFF

  type Addr = seq<byte>

  datatype Conn = Conn(
    active: bool, handle: u16, peer: Addr, le: bool, encrypted: bool, role: byte, peerType: byte)

  const ZERO := Conn(false, 0, [0, 0, 0, 0, 0, 0], false, false, 0, 0)

  datatype Note = Note(handle: u16, up: bool)

  /** An Encryption Change as the encryption observers get it. */
  datatype Change = Change(handle: u16, enabled: byte)

  /**
   The slots, the address we are paging, what the connection and the encryption observers
   were told, and the handles for which authentication was requested, in order.
   */
  datatype Table = Table(
    conns: seq<Conn>, paging: Option<Addr>, notes: seq<Note>, changes: seq<Change>, auths: seq<u16>)

  const UNUSED := Conn(false, NO_HANDLE, [0, 0, 0, 0, 0, 0], false, false, 0, 0)

  const EMPTY := Table([UNUSED, UNUSED, UNUSED, UNUSED, UNUSED, UNUSED, UNUSED, UNUSED], None, [], [], [])

  datatype Event =
    | Page(addr: Addr)                // hci_classic_connect
    | Classic(p: seq<byte>)           // Connection Complete
    | Le(p: seq<byte>)                // LE Connection Complete
    | Gone(p: seq<byte>)              // Disconnection Complete
    | Encryption(p: seq<byte>)        // Encryption Change

  /** What the three table searches look for. */
  datatype Query = ByAddr(a: Addr) | ByHandle(h: u16) | Free

  predicate Matches(c: Conn, q: Query) {
    match q
    case ByAddr(a) => c.active && c.peer == a
    case ByHandle(h) => c.active && c.handle == h
    case Free => !c.active
  }

  /** First matching index, or the length. */
  function Find(conns: seq<Conn>, q: Query): (i: nat)
    ensures i <= |conns|
    ensures i < |conns| ==> Matches(conns[i], q)
    ensures forall k | 0 <= k < i :: !Matches(conns[k], q)
  {
    if conns == [] then 0
    else if Matches(conns[0], q) then 0 else 1 + Find(conns[1..], q)
  }

  /** The slot a new link goes to: the one already holding that peer, else the first free one. */
  function SlotFor(conns: seq<Conn>, a: Addr): (i: nat)
    ensures i <= |conns|
  {
    var i := Find(conns, ByAddr(a));
    if i < |conns| then i else Find(conns, Free)
  }

  /** conn_alloc clears a free slot; a slot found by address keeps its fields. */
  function SlotBase(conns: seq<Conn>, a: Addr): Conn
    requires SlotFor(conns, a) < |conns|
  {
    if Find(conns, ByAddr(a)) < |conns| then conns[SlotFor(conns, a)] else ZERO
  }

  function Install(t: Table, c: Conn): Table
    requires SlotFor(t.conns, c.peer) < |t.conns|
  {
    t.(conns := t.conns[SlotFor(t.conns, c.peer) := c], notes := t.notes + [Note(c.handle, true)])
  }

  function OnClassic(t: Table, p: seq<byte>): Table {
    if |p| < 11 || p[0] != 0 then t
    else
      var handle, addr := Rd16(p, 1), p[3..9];
      if SlotFor(t.conns, addr) == |t.conns| then t
      else
        var outbound := t.paging == Some(addr);
        var c := SlotBase(t.conns, addr).(active := true, handle := handle, peer := addr, le := false,
                                          role := if outbound then 0 else 1);
        Install(if outbound then t.(paging := None) else t, c).(auths := t.auths + [handle])
  }

  function OnLe(t: Table, p: seq<byte>): Table {
    if |p| < 18 || p[1] != 0 then t
    else
      var handle, addr := Rd16(p, 2), p[6..12];
      if SlotFor(t.conns, addr) == |t.conns| then t
      else
        var c := SlotBase(t.conns, addr).(active := true, handle := handle, peer := addr, le := true,
                                          role := if p[4] == 0 then 0 else 1, peerType := p[5]);
        Install(t, c)
  }

  function OnGone(t: Table, p: seq<byte>): Table {
    if |p| < 4 then t
    else
      var handle := Rd16(p, 1);
      var i := Find(t.conns, ByHandle(handle));
      if i == |t.conns| then t
      else t.(conns := t.conns[i := t.conns[i].(active := false, handle := NO_HANDLE)],
              notes := t.notes + [Note(handle, false)])
  }

  function OnEncryption(t: Table, p: seq<byte>): Table {
    if |p| < 4 then t
    else
      var i, told := Find(t.conns, ByHandle(Rd16(p, 1))), t.(changes := t.changes + [Change(Rd16(p, 1), p[3])]);
      if i == |t.conns| then told else told.(conns := t.conns[i := t.conns[i].(encrypted := p[3] != 0)])
  }

  function Step(t: Table, e: Event): Table {
    match e
    case Page(addr) => t.(paging := Some(addr))
    case Classic(p) => OnClassic(t, p)
    case Le(p) => OnLe(t, p)
    case Gone(p) => OnGone(t, p)
    case Encryption(p) => OnEncryption(t, p)
  }

  function Run(evs: seq<Event>): (t: Table)
  {
    if evs == [] then EMPTY else Step(Run(evs[..|evs| - 1]), evs[|evs| - 1])
  }

  // ---------------------------------------------------------------------------
  // What one event changes
  // ---------------------------------------------------------------------------

  /** The link an event brings up, if any. */
  function Opens(e: Event): Option<(u16, Addr)> {
    match e
    case Classic(p) => if |p| >= 11 && p[0] == 0 then Some((Rd16(p, 1), p[3..9])) else None
    case Le(p) => if |p| >= 18 && p[1] == 0 then Some((Rd16(p, 2), p[6..12])) else None
    case _ => None
  }

  /** An event that brings a link up and finds a slot for it. */
  predicate Lands(conns: seq<Conn>, e: Event) {
    Opens(e).Some? && SlotFor(conns, Opens(e).value.1) < |conns|
  }

  /** The handle a Disconnection Complete is about. */
  function Closes(e: Event): Option<u16> {
    if e.Gone? && |e.p| >= 4 then Some(Rd16(e.p, 1)) else None
  }

  lemma LandedSlot(t: Table, e: Event) returns (i: nat, c: Conn)
    requires Lands(t.conns, e)
    ensures i == SlotFor(t.conns, Opens(e).value.1) < |t.conns|
    ensures c.active && c.handle == Opens(e).value.0 && c.peer == Opens(e).value.1 && c.le == e.Le?
    ensures c.encrypted == SlotBase(t.conns, c.peer).encrypted
    ensures Step(t, e).conns == t.conns[i := c] && Step(t, e).notes == t.notes + [Note(c.handle, true)]
  {
    i := SlotFor(t.conns, Opens(e).value.1);
    c := Step(t, e).conns[i];
  }

  lemma ClosedSlot(t: Table, e: Event) returns (i: nat)
    requires Closes(e).Some?
    ensures i == Find(t.conns, ByHandle(Closes(e).value)) <= |t.conns|
    ensures Step(t, e).conns
            == if i == |t.conns| then t.conns else t.conns[i := t.conns[i].(active := false, handle := NO_HANDLE)]
    ensures Step(t, e).notes == t.notes + if i == |t.conns| then [] else [Note(Closes(e).value, false)]
  {
    i := Find(t.conns, ByHandle(Closes(e).value));
    assert t.notes + [] == t.notes;
  }

  lemma MarkedSlot(t: Table, p: seq<byte>) returns (i: nat)
    requires |p| >= 4
    ensures i == Find(t.conns, ByHandle(Rd16(p, 1))) <= |t.conns|
    ensures OnEncryption(t, p).conns
            == if i == |t.conns| then t.conns else t.conns[i := t.conns[i].(encrypted := p[3] != 0)]
    ensures OnEncryption(t, p).notes == t.notes
  {
    i := Find(t.conns, ByHandle(Rd16(p, 1)));
  }

  lemma QuietEvent(t: Table, e: Event)
    requires !Lands(t.conns, e) && Closes(e).None? && !e.Encryption?
    ensures Step(t, e).conns == t.conns && Step(t, e).notes == t.notes
  {
  }

  /** The same links in the same slots, up to their marks. */
  predicate SameLinks(a: seq<Conn>, b: seq<Conn>) {
    && |a| == |b|
    && forall i | 0 <= i < |a| ::
         a[i].active == b[i].active && a[i].handle == b[i].handle && a[i].peer == b[i].peer
  }

  lemma OtherEvent(t: Table, e: Event)
    requires !Lands(t.conns, e) && Closes(e).None?
    ensures SameLinks(t.conns, Step(t, e).conns) && Step(t, e).notes == t.notes
  {
    if e.Encryption? {
      if |e.p| >= 4 {
        var i := MarkedSlot(t, e.p);
      }
    } else {
      QuietEvent(t, e);
    }
  }

  // ---------------------------------------------------------------------------
  // Any run
  // ---------------------------------------------------------------------------

  predicate DistinctPeers(conns: seq<Conn>) {
    forall i, j | 0 <= i < j < |conns| && conns[i].active && conns[j].active :: conns[i].peer != conns[j].peer
  }

  lemma LandingKeepsDistinct(conns: seq<Conn>, i: nat, c: Conn)
    requires DistinctPeers(conns) && i == SlotFor(conns, c.peer) < |conns|
    ensures DistinctPeers(conns[i := c])
  {
    forall k | 0 <= k < |conns| && k != i && conns[k].active
      ensures conns[k].peer != c.peer
    {
      assert !Matches(conns[k], ByAddr(c.peer)) || Matches(conns[i], ByAddr(c.peer));
    }
  }

  lemma StepKeepsDistinct(t: Table, e: Event)
    requires |t.conns| == SLOTS && DistinctPeers(t.conns)
    ensures |Step(t, e).conns| == SLOTS && DistinctPeers(Step(t, e).conns)
  {
    if Lands(t.conns, e) {
      var i, c := LandedSlot(t, e);
      LandingKeepsDistinct(t.conns, i, c);
    } else if Closes(e).Some? {
      var i := ClosedSlot(t, e);
    } else {
      OtherEvent(t, e);
    }
  }

  /** In every reachable state no two active slots share a peer address, whatever the controller sends. */
  lemma {:induction false} PeersStayDistinct(evs: seq<Event>)
    ensures |Run(evs).conns| == SLOTS && DistinctPeers(Run(evs).conns)
  {
    if evs != [] {
      PeersStayDistinct(evs[..|evs| - 1]);
      StepKeepsDistinct(Run(evs[..|evs| - 1]), evs[|evs| - 1]);
    }
  }
}
