/**
 Whole runs of the ACL receive path. Links do not disturb each other, fragmenting
 and reassembling undo each other under every interleaving, and for arbitrary
 input every delivered PDU comes from one start fragment and its continuations.
 */
module AclTheorems {
  import opened Bytes
  import opened Acl
  import opened Reassembly

  /** An inbound ACL packet, or a Disconnection Complete for a handle. */
  datatype Event = Data(packet: seq<byte>) | Down(handle: u16)

  type Log = seq<(u16, Pdu)>

  function Step(m: Links, e: Event): (Links, Log) {
    match e
    case Data(packet) => OnAcl(m, packet)
    case Down(h) => (OnDown(m, h), [])
  }

  function Run(evs: seq<Event>): (Links, Log) {
    if evs == [] then (map[], [])
    else
      var (m, log) := Run(evs[..|evs| - 1]);
      var (m', out) := Step(m, evs[|evs| - 1]);
      (m', log + out)
  }

  function For(h: u16, log: Log): seq<Pdu> {
    if log == [] then []
    else For(h, log[..|log| - 1]) + if log[|log| - 1].0 == h then [log[|log| - 1].1] else []
  }

  // ---------------------------------------------------------------------------
  // One link on its own
  // ---------------------------------------------------------------------------

  datatype LinkOp = Piece(start: bool, payload: seq<byte>) | Reset

  function LinkStep(p: Partial, op: LinkOp): (r: (Partial, Option<Pdu>))
    requires p.Valid()
    ensures r.0.Valid()
  {
    match op
    case Piece(start, payload) => Feed(p, start, payload)
    case Reset => (IDLE, None)
  }

  function LinkRun(p: Partial, ops: seq<LinkOp>): (r: (Partial, seq<Pdu>))
    requires p.Valid()
    ensures r.0.Valid()
  {
    if ops == [] then (p, [])
    else
      var (q, out) := LinkRun(p, ops[..|ops| - 1]);
      var (q', pdu) := LinkStep(q, ops[|ops| - 1]);
      (q', out + Listed(pdu))
  }

  function Listed<T>(o: Option<T>): seq<T> {
    if o.Some? then [o.value] else []
  }

  lemma {:induction false} LinkRunAppend(p: Partial, a: seq<LinkOp>, b: seq<LinkOp>)
    requires p.Valid()
    ensures var (q, out) := LinkRun(p, a);
            LinkRun(p, a + b).0 == LinkRun(q, b).0 && LinkRun(p, a + b).1 == out + LinkRun(q, b).1
  {
    if b == [] {
      assert a + b == a;
    } else {
      LinkRunAppend(p, a, b[..|b| - 1]);
      assert (a + b)[..|a + b| - 1] == a + b[..|b| - 1];
      var (q, out) := LinkRun(p, a);
      var (q', out') := LinkRun(q, b[..|b| - 1]);
      var pdu := LinkStep(q', b[|b| - 1]).1;
      assert (out + out') + Listed(pdu) == out + (out' + Listed(pdu));
    }
  }

  lemma LinkRunCons(p: Partial, op: LinkOp, rest: seq<LinkOp>)
    requires p.Valid()
    ensures var (q, pdu) := LinkStep(p, op);
            && LinkRun(p, [op] + rest).0 == LinkRun(q, rest).0
            && LinkRun(p, [op] + rest).1 == Listed(pdu) + LinkRun(q, rest).1
  {
    LinkRunAppend(p, [op], rest);
    assert [op][..0] == [];
    assert LinkRun(p, []) == (p, []);
    assert LinkRun(p, [op]).1 == [] + Listed(LinkStep(p, op).1) == Listed(LinkStep(p, op).1);
  }

  /** The handle an event is about, if it is about one. */
  function HandleOf(e: Event): Option<u16> {
    match e
    case Data(packet) => (match Parse(packet) case Malformed => None case Fragment(h, _, _) => Some(h))
    case Down(h) => Some(h)
  }

  function OpOf(e: Event): LinkOp {
    match e
    case Data(packet) =>
      (match Parse(packet) case Malformed => Reset case Fragment(_, start, payload) => Piece(start, payload))
    case Down(_) => Reset
  }

  /** What one link sees of a run. */
  function OnLink(evs: seq<Event>, h: u16): seq<LinkOp> {
    if evs == [] then []
    else
      var e := evs[|evs| - 1];
      OnLink(evs[..|evs| - 1], h) + if HandleOf(e) == Some(h) then [OpOf(e)] else []
  }

  function Progress(m: Links, h: u16): (p: Partial)
    ensures p.Valid()
  {
    if h in m then m[h] else IDLE
  }

  /** The handles that have sent a packet since they last hung up: those that need a slot. */
  function Holding(evs: seq<Event>): set<u16> {
    if evs == [] then {}
    else
      var held, e := Holding(evs[..|evs| - 1]), evs[|evs| - 1];
      if HandleOf(e).None? then held
      else if e.Down? then held - {HandleOf(e).value} else held + {HandleOf(e).value}
  }

  /** Never more than eight links need a slot at once. */
  predicate Roomy(evs: seq<Event>) {
    |Holding(evs)| <= 8 && (evs == [] || Roomy(evs[..|evs| - 1]))
  }

  lemma SubsetSize<T>(a: set<T>, b: set<T>)
    requires a <= b
    ensures |a| <= |b|
    ensures forall x | x in b && x !in a :: |a| < |b|
  {
    assert b == a + (b - a);
    forall x | x in b && x !in a
      ensures |a| < |b|
    {
      assert x in b - a;
    }
  }

  lemma StepHolds(m: Links, e: Event, held: set<u16>)
    requires m.Keys == held && HandleOf(e).Some? && e.Data? && |held + {HandleOf(e).value}| <= MAX_LINKS
    ensures HandleOf(e).value in m || |m| < MAX_LINKS
    ensures Step(m, e).0.Keys == held + {HandleOf(e).value}
  {
    var h := HandleOf(e).value;
    assert |m| == |m.Keys|;
    if h !in m {
      assert |held + {h}| == |held| + 1;
    }
  }

  lemma StepIsLinkStep(m: Links, e: Event, h: u16)
    requires HandleOf(e) == Some(h) && (e.Down? || h in m || |m| < MAX_LINKS)
    ensures var (p, pdu) := LinkStep(Progress(m, h), OpOf(e));
            Progress(Step(m, e).0, h) == p && For(h, Step(m, e).1) == Listed(pdu)
  {
    if e.Down? {
      HangUpIsReset(m, e, h);
    } else {
      OneOpIsOneStep(m, e, h);
    }
  }

  lemma HoldingStep(m: Links, front: seq<Event>, e: Event)
    requires m.Keys == Holding(front) && |Holding(front + [e])| <= MAX_LINKS
    ensures Step(m, e).0.Keys == Holding(front + [e])
    ensures HandleOf(e).Some? ==> e.Down? || HandleOf(e).value in m || |m| < MAX_LINKS
  {
    assert (front + [e])[..|front|] == front;
    if HandleOf(e).Some? && e.Data? {
      StepHolds(m, e, Holding(front));
    }
  }

  /** A link's progress and deliveries are those of its own packets alone. */
  predicate Independent(evs: seq<Event>, h: u16) {
    && Progress(Run(evs).0, h) == LinkRun(IDLE, OnLink(evs, h)).0
    && For(h, Run(evs).1) == LinkRun(IDLE, OnLink(evs, h)).1
  }

  lemma StepKeepsIndependence(front: seq<Event>, e: Event, h: u16)
    requires Independent(front, h)
    requires HandleOf(e).Some? ==> e.Down? || HandleOf(e).value in Run(front).0 || |Run(front).0| < MAX_LINKS
    ensures Independent(front + [e], h)
  {
    var m, log := Run(front).0, For(h, Run(front).1);
    ForSnoc(h, front, e);
    OnLinkSnoc(front, e, h);
    if HandleOf(e) == Some(h) {
      StepIsLinkStep(m, e, h);
    } else {
      OtherLinkUntouched(m, e, h);
      assert log + [] == log;
    }
  }

  /** The slots are held by exactly the links that need one. */
  predicate Slotted(evs: seq<Event>) {
    Run(evs).0.Keys == Holding(evs)
  }

  lemma StepKeepsSlotted(front: seq<Event>, e: Event)
    requires Slotted(front) && |Holding(front + [e])| <= MAX_LINKS
    ensures Slotted(front + [e])
    ensures HandleOf(e).Some? ==> e.Down? || HandleOf(e).value in Run(front).0 || |Run(front).0| < MAX_LINKS
  {
    HoldingStep(Run(front).0, front, e);
    ForSnoc(0, front, e);
  }

  /** While at most eight links need a slot at a time, each link behaves as if it were alone. */
  lemma {:induction false} LinksAreIndependent(evs: seq<Event>, h: u16)
    requires Roomy(evs)
    ensures Slotted(evs) && Independent(evs, h)
  {
    if evs != [] {
      var front, e := evs[..|evs| - 1], evs[|evs| - 1];
      assert evs == front + [e];
      LinksAreIndependent(front, h);
      StepKeepsSlotted(front, e);
      StepKeepsIndependence(front, e, h);
    }
  }

  lemma HangUpIsReset(m: Links, e: Event, h: u16)
    requires e == Down(h)
    ensures Progress(Step(m, e).0, h) == IDLE && Step(m, e).1 == [] && For(h, Step(m, e).1) == []
    ensures LinkStep(Progress(m, h), OpOf(e)) == (IDLE, None)
  {
  }

  lemma ForAppend(h: u16, log: Log, out: Log)
    requires |out| <= 1
    ensures For(h, log + out) == For(h, log) + For(h, out)
  {
    if out == [] {
      assert log + out == log;
    } else {
      assert (log + out)[..|log + out| - 1] == log;
      assert out[..0] == [];
      assert For(h, out) == For(h, []) + if out[0].0 == h then [out[0].1] else [];
    }
  }

  lemma ForSnoc(h: u16, front: seq<Event>, e: Event)
    ensures var (m, log) := Run(front);
            && Run(front + [e]).0 == Step(m, e).0
            && For(h, Run(front + [e]).1) == For(h, log) + For(h, Step(m, e).1)
  {
    var (m, log) := Run(front);
    assert (front + [e])[..|front + [e]| - 1] == front;
    ForAppend(h, log, Step(m, e).1);
  }

  lemma OnLinkSnoc(front: seq<Event>, e: Event, h: u16)
    ensures var p := LinkRun(IDLE, OnLink(front, h));
            var q := LinkRun(IDLE, OnLink(front + [e], h));
            if HandleOf(e) == Some(h)
            then q.0 == LinkStep(p.0, OpOf(e)).0 && q.1 == p.1 + Listed(LinkStep(p.0, OpOf(e)).1)
            else q == p
  {
    var seen := OnLink(front, h);
    assert (front + [e])[..|front + [e]| - 1] == front;
    if HandleOf(e) == Some(h) {
      assert (seen + [OpOf(e)])[..|seen + [OpOf(e)]| - 1] == seen;
    } else {
      assert seen + [] == seen;
    }
  }

  lemma OtherLinkUntouched(m: Links, e: Event, h: u16)
    requires HandleOf(e) != Some(h)
    ensures Progress(Step(m, e).0, h) == Progress(m, h)
    ensures For(h, Step(m, e).1) == []
  {
    var out := Step(m, e).1;
    assert |out| <= 1;
    assert out != [] ==> out[0].0 != h && out[..0] == [];
  }

  lemma OneOpIsOneStep(m: Links, e: Event, h: u16)
    requires HandleOf(e) == Some(h) && (h in m || |m| < MAX_LINKS)
    ensures var (p, pdu) := LinkStep(Progress(m, h), OpOf(e));
            && Progress(Step(m, e).0, h) == p
            && Step(m, e).1 == (if pdu.Some? then [(h, pdu.value)] else [])
            && For(h, Step(m, e).1) == Listed(pdu)
  {
    var out := Step(m, e).1;
    assert out != [] ==> out[..0] == [];
  }

  // ---------------------------------------------------------------------------
  // Round trip
  // ---------------------------------------------------------------------------

  predicate WellFormed(pdu: Pdu) {
    4 <= |pdu| < 0x1_0000 && Rd16(pdu, 0) == |pdu| - 4
  }

  /** What a link carries: PDUs, each sent under whatever packet size is current, and hang-ups. */
  datatype Traffic = Send(mtu: nat, pdu: Pdu) | HangUp {
    predicate Valid() {
      Send? ==> MtuOk(mtu) && WellFormed(pdu)
    }
  }

  predicate AllValid(sent: seq<Traffic>) {
    forall i | 0 <= i < |sent| :: sent[i].Valid()
  }

  function Ops(packets: seq<seq<byte>>): seq<LinkOp> {
    seq(|packets|, i requires 0 <= i < |packets| => OpOf(Data(packets[i])))
  }

  function Stream(h: u16, sent: seq<Traffic>): seq<LinkOp>
    requires AllValid(sent)
  {
    if sent == [] then []
    else
      (match sent[0]
       case Send(mtu, pdu) => Ops(Fragments(h, mtu, pdu, true))
       case HangUp => [Reset])
      + Stream(h, sent[1..])
  }

  /** The PDUs that fit the receiver's buffer, in sending order. */
  function Fitting(sent: seq<Traffic>): seq<Pdu> {
    if sent == [] then []
    else (if sent[0].Send? && |sent[0].pdu| <= 1032 then [sent[0].pdu] else []) + Fitting(sent[1..])
  }

  lemma OpsCons(h: u16, mtu: nat, data: seq<byte>, first: bool)
    requires MtuOk(mtu) && data != []
    ensures var n := Min(|data|, mtu);
            Ops(Fragments(h, mtu, data, first))
            == [Piece(first, data[..n])] + Ops(Fragments(h, mtu, data[n..], false))
  {
    var n := Min(|data|, mtu);
    ParsePacket(h, if first then FIRST_FLUSH else CONTINUING, data[..n]);
  }

  lemma FeedContinuation(pdu: Pdu, k: nat, n: nat)
    requires WellFormed(pdu) && |pdu| <= BUFFER_LEN && k + n <= |pdu| && k < |pdu|
    ensures Feed(Partial(|pdu|, pdu[..k]), false, pdu[k..k + n])
            == if k + n == |pdu| then (IDLE, Some(pdu)) else (Partial(|pdu|, pdu[..k + n]), None)
  {
    assert pdu[..k] + pdu[k..k + n] == pdu[..k + n];
    if k + n == |pdu| {
      assert pdu[..k + n] == pdu && pdu[..|pdu|] == pdu;
    }
  }

  lemma FeedStart(p: Partial, pdu: Pdu, n: nat)
    requires p.Valid() && WellFormed(pdu) && 2 <= n <= |pdu|
    ensures Feed(p, true, pdu[..n])
            == if |pdu| > BUFFER_LEN then (Partial(|pdu|, []), None)
               else if n == |pdu| then (IDLE, Some(pdu)) else (Partial(|pdu|, pdu[..n]), None)
  {
    assert Announced(pdu[..n]) == |pdu|;
    assert [] + pdu[..n] == pdu[..n];
    if n == |pdu| {
      assert pdu[..n] == pdu;
    }
  }

  lemma NextContinuation(h: u16, mtu: nat, pdu: Pdu, k: nat, n: nat)
    requires MtuOk(mtu) && k < |pdu| && n == Min(|pdu| - k, mtu)
    ensures Ops(Fragments(h, mtu, pdu[k..], false))
            == [Piece(false, pdu[k..k + n])] + Ops(Fragments(h, mtu, pdu[k + n..], false))
  {
    OpsCons(h, mtu, pdu[k..], false);
    assert pdu[k..][..n] == pdu[k..k + n] && pdu[k..][n..] == pdu[k + n..];
  }

  /** From k gathered bytes on, the remaining continuations complete the PDU. */
  predicate Completes(h: u16, mtu: nat, pdu: Pdu, k: nat)
    requires MtuOk(mtu) && WellFormed(pdu) && |pdu| <= BUFFER_LEN && k < |pdu|
  {
    LinkRun(Partial(|pdu|, pdu[..k]), Ops(Fragments(h, mtu, pdu[k..], false))).1 == [pdu]
  }

  lemma ContinuationStep(h: u16, mtu: nat, pdu: Pdu, k: nat, n: nat)
    requires MtuOk(mtu) && WellFormed(pdu) && |pdu| <= BUFFER_LEN && k < |pdu| && n == Min(|pdu| - k, mtu)
    ensures k + n == |pdu| || Completes(h, mtu, pdu, k + n) ==> Completes(h, mtu, pdu, k)
  {
    assert k + n == |pdu| ==> Fragments(h, mtu, pdu[k + n..], false) == [];
    NextContinuation(h, mtu, pdu, k, n);
    FeedContinuation(pdu, k, n);
    LinkRunCons(Partial(|pdu|, pdu[..k]), Piece(false, pdu[k..k + n]), Ops(Fragments(h, mtu, pdu[k + n..], false)));
  }

  function Completion(h: u16, mtu: nat, pdu: Pdu): nat -> bool
    requires MtuOk(mtu) && WellFormed(pdu) && |pdu| <= BUFFER_LEN
  {
    (k: nat) => k < |pdu| ==> Completes(h, mtu, pdu, k)
  }

  /** If the step of at most `mtu` from k reaches the end or a place where f holds, f holds at k. */
  predicate Carries(f: nat -> bool, size: nat, mtu: nat, k: nat) {
    k < size && (k + Min(size - k, mtu) == size || f(k + Min(size - k, mtu))) ==> f(k)
  }

  lemma {:induction false} CarriedToAll(f: nat -> bool, size: nat, mtu: nat, k: nat)
    requires mtu > 0 && k < size && forall i :: Carries(f, size, mtu, i)
    ensures f(k)
    decreases size - k
  {
    assert Carries(f, size, mtu, k);
    var n := Min(size - k, mtu);
    if k + n < size {
      CarriedToAll(f, size, mtu, k + n);
    }
  }

  lemma ContinuationsComplete(h: u16, mtu: nat, pdu: Pdu, k: nat)
    requires MtuOk(mtu) && WellFormed(pdu) && |pdu| <= BUFFER_LEN && k < |pdu|
    ensures Completes(h, mtu, pdu, k)
  {
    var f := Completion(h, mtu, pdu);
    forall i: nat
      ensures Carries(f, |pdu|, mtu, i)
    {
      if i < |pdu| {
        ContinuationStep(h, mtu, pdu, i, Min(|pdu| - i, mtu));
      }
    }
    CarriedToAll(f, |pdu|, mtu, k);
  }

  /** An announced length that is zero or beyond the buffer can never be reached. */
  lemma {:induction false} ContinuationsOfLongPdu(h: u16, mtu: nat, data: seq<byte>, p: Partial)
    requires MtuOk(mtu) && p.Valid() && (p.want == 0 || p.want > BUFFER_LEN)
    ensures LinkRun(p, Ops(Fragments(h, mtu, data, false))).1 == []
    decreases |data|
  {
    if data != [] {
      var n := Min(|data|, mtu);
      OpsCons(h, mtu, data, false);
      var rest := Ops(Fragments(h, mtu, data[n..], false));
      LinkRunCons(p, Piece(false, data[..n]), rest);
      ContinuationsOfLongPdu(h, mtu, data[n..], LinkStep(p, Piece(false, data[..n])).0);
    }
  }

  lemma OnePdu(h: u16, mtu: nat, pdu: Pdu, p: Partial)
    requires MtuOk(mtu) && WellFormed(pdu) && p.Valid()
    ensures LinkRun(p, Ops(Fragments(h, mtu, pdu, true))).1 == if |pdu| <= BUFFER_LEN then [pdu] else []
  {
    var n := Min(|pdu|, mtu);
    OpsCons(h, mtu, pdu, true);
    var rest := Ops(Fragments(h, mtu, pdu[n..], false));
    LinkRunCons(p, Piece(true, pdu[..n]), rest);
    FeedStart(p, pdu, n);
    if |pdu| > BUFFER_LEN {
      ContinuationsOfLongPdu(h, mtu, pdu[n..], Partial(|pdu|, []));
    } else if n == |pdu| {
      assert rest == [];
    } else {
      ContinuationsComplete(h, mtu, pdu, n);
    }
  }

  lemma {:induction false} StreamDeliversFitting(h: u16, sent: seq<Traffic>, p: Partial)
    requires p.Valid() && AllValid(sent)
    ensures LinkRun(p, Stream(h, sent)).1 == Fitting(sent)
    decreases |sent|
  {
    if sent != [] {
      var head := if sent[0].Send? then Ops(Fragments(h, sent[0].mtu, sent[0].pdu, true)) else [Reset];
      LinkRunAppend(p, head, Stream(h, sent[1..]));
      StreamDeliversFitting(h, sent[1..], LinkRun(p, head).0);
      if sent[0].Send? {
        OnePdu(h, sent[0].mtu, sent[0].pdu, p);
      } else {
        assert LinkRun(p, [Reset]).1 == [] by { LinkRunCons(p, Reset, []); assert [Reset] + [] == [Reset]; }
      }
    }
  }

  lemma LongerRunDeliversMore(p: Partial, a: seq<LinkOp>, b: seq<LinkOp>)
    requires p.Valid() && a <= b
    ensures LinkRun(p, a).1 <= LinkRun(p, b).1
  {
    LinkRunAppend(p, a, b[|a|..]);
    assert a + b[|a|..] == b;
  }

  /**
   Main theorem. Links send any lists of well-formed PDUs through the fragmenter, and
   their packet streams and hang-ups are interleaved in any way that never leaves more
   than eight links needing a slot at once. Then at any moment, with the first n items of
   a link's traffic fully received and perhaps part of the rest, the sink has received
   for that link the PDUs of at most 1032 bytes among those n, each once and in order,
   and beyond them nothing but the next ones in order; longer PDUs are dropped and
   disturb nothing. With the whole traffic received the deliveries are exactly those.
   */
  lemma RoundTripUnderInterleaving(evs: seq<Event>, h: u16, sent: seq<Traffic>, n: nat)
    requires Roomy(evs) && AllValid(sent) && n <= |sent|
    requires Stream(h, sent[..n]) <= OnLink(evs, h) <= Stream(h, sent)
    ensures Fitting(sent[..n]) <= For(h, Run(evs).1) <= Fitting(sent)
    ensures n == |sent| ==> For(h, Run(evs).1) == Fitting(sent)
  {
    LinksAreIndependent(evs, h);
    LongerRunDeliversMore(IDLE, Stream(h, sent[..n]), OnLink(evs, h));
    LongerRunDeliversMore(IDLE, OnLink(evs, h), Stream(h, sent));
    StreamDeliversFitting(h, sent[..n], IDLE);
    StreamDeliversFitting(h, sent, IDLE);
    assert n == |sent| ==> sent[..n] == sent;
  }

  /** In particular a run over at most eight handles is roomy. */
  lemma {:induction false} FewHandlesAreRoomy(evs: seq<Event>, handles: set<u16>)
    requires |handles| <= 8
    requires forall i | 0 <= i < |evs| :: HandleOf(evs[i]).Some? ==> HandleOf(evs[i]).value in handles
    ensures Roomy(evs) && Holding(evs) <= handles
  {
    if evs == [] {
      assert |Holding(evs)| == 0;
    } else {
      FewHandlesAreRoomy(evs[..|evs| - 1], handles);
      SubsetSize(Holding(evs), handles);
    }
  }

  // ---------------------------------------------------------------------------
  // Safety for arbitrary packets
  // ---------------------------------------------------------------------------

  predicate StartsOn(e: Event, h: u16) {
    HandleOf(e) == Some(h) && OpOf(e).Piece? && OpOf(e).start
  }

  predicate ContinuesOn(e: Event, h: u16) {
    HandleOf(e) == Some(h) ==> OpOf(e).Piece? && !OpOf(e).start
  }

  /** Payload bytes of a handle's packets, in order. */
  function Payloads(evs: seq<Event>, h: u16): seq<byte> {
    if evs == [] then []
    else
      var e := evs[|evs| - 1];
      Payloads(evs[..|evs| - 1], h) + if HandleOf(e) == Some(h) && OpOf(e).Piece? then OpOf(e).payload else []
  }

  /** evs[j] opens a PDU on h and nothing after it reopens or hangs up that link. */
  predicate OpenSince(evs: seq<Event>, j: nat, h: u16) {
    && j < |evs| && StartsOn(evs[j], h)
    && forall k | j < k < |evs| :: ContinuesOn(evs[k], h)
  }

  /** What an awaited, reachable length means in terms of the history. */
  predicate Gathering(evs: seq<Event>, h: u16, p: Partial) {
    0 < p.want <= 1032 ==>
      exists j: nat | j < |evs| ::
        && OpenSince(evs, j, h)
        && p.want == Announced(OpOf(evs[j]).payload)
        && p.data == Payloads(evs[j..], h)
        && |p.data| < p.want
  }

  lemma PayloadsSnoc(evs: seq<Event>, j: nat, e: Event, h: u16)
    requires j <= |evs|
    ensures Payloads((evs + [e])[j..], h)
            == Payloads(evs[j..], h) + if HandleOf(e) == Some(h) && OpOf(e).Piece? then OpOf(e).payload else []
  {
    assert (evs + [e])[j..] == evs[j..] + [e];
    assert (evs[j..] + [e])[..|evs[j..]|] == evs[j..];
  }

  /** A first fragment says how long its PDU is: the four bytes of the header and what they count, in 16 bits. */
  predicate Announces(payload: seq<byte>, n: int) {
    |payload| >= 2 && n == (4 + (payload[0] as int) + 0x100 * (payload[1] as int)) % 0x1_0000
  }

  /** Every delivery has this shape: evs[j] opened the PDU and the last event completed it, within the buffer. */
  predicate Explains(evs: seq<Event>, j: nat, h: u16, pdu: Pdu) {
    && OpenSince(evs, j, h)
    && Announces(OpOf(evs[j]).payload, |pdu|) && 0 < |pdu| <= 1032
    && pdu <= Payloads(evs[j..], h) && |Payloads(evs[j..], h)| <= 1032
    && (j < |evs| - 1 ==> |Payloads(evs[j..|evs| - 1], h)| < |pdu|)
  }

  lemma StartGathers(front: seq<Event>, e: Event, h: u16, p: Partial)
    requires p.Valid() && StartsOn(e, h)
    ensures var (q, pdu) := LinkStep(p, OpOf(e));
            && Gathering(front + [e], h, q)
            && (pdu.Some? ==> Explains(front + [e], |front|, h, pdu.value))
  {
    var evs, j := front + [e], |front|;
    var (q, pdu) := LinkStep(p, OpOf(e));
    PayloadsSnoc(front, j, e, h);
    assert Payloads(front[j..], h) == [];
    assert Payloads(evs[j..], h) == [] + OpOf(e).payload == OpOf(e).payload;
    assert evs[j] == e && OpenSince(evs, j, h);
    if pdu.Some? {
      assert [] + OpOf(e).payload == OpOf(e).payload;
    }
  }

  lemma ContinuationGathers(front: seq<Event>, e: Event, h: u16, p: Partial, j: nat)
    requires p.Valid() && HandleOf(e) == Some(h) && OpOf(e).Piece? && !OpOf(e).start && 0 < p.want <= BUFFER_LEN
    requires j < |front| && OpenSince(front, j, h) && p.want == Announced(OpOf(front[j]).payload)
    requires p.data == Payloads(front[j..], h) && |p.data| < p.want
    ensures var (q, pdu) := LinkStep(p, OpOf(e));
            && Gathering(front + [e], h, q)
            && (pdu.Some? ==> Explains(front + [e], j, h, pdu.value))
  {
    var evs := front + [e];
    PayloadsSnoc(front, j, e, h);
    assert evs[j..|evs| - 1] == front[j..];
    assert evs[j] == front[j] && OpenSince(evs, j, h);
  }

  lemma StepKeepsGathering(front: seq<Event>, e: Event, h: u16, p: Partial)
    requires p.Valid() && Gathering(front, h, p) && HandleOf(e) == Some(h)
    ensures var (q, pdu) := LinkStep(p, OpOf(e));
            && Gathering(front + [e], h, q)
            && (pdu.Some? ==> exists j: nat | j <= |front| :: Explains(front + [e], j, h, pdu.value))
  {
    if OpOf(e).Piece? && OpOf(e).start {
      StartGathers(front, e, h, p);
    } else if OpOf(e).Piece? && 0 < p.want <= BUFFER_LEN {
      var j: nat :| j < |front| && OpenSince(front, j, h) && p.want == Announced(OpOf(front[j]).payload)
                    && p.data == Payloads(front[j..], h) && |p.data| < p.want;
      ContinuationGathers(front, e, h, p, j);
    }
  }

  lemma IdleEventKeepsGathering(front: seq<Event>, e: Event, h: u16, p: Partial)
    requires Gathering(front, h, p) && HandleOf(e) != Some(h)
    ensures Gathering(front + [e], h, p)
  {
    if 0 < p.want <= BUFFER_LEN {
      var j: nat :| j < |front| && OpenSince(front, j, h) && p.want == Announced(OpOf(front[j]).payload)
                    && p.data == Payloads(front[j..], h) && |p.data| < p.want;
      PayloadsSnoc(front, j, e, h);
      assert (front + [e])[j] == front[j] && OpenSince(front + [e], j, h);
    }
  }

  lemma EventKeepsGathering(front: seq<Event>, e: Event, h: u16)
    requires Gathering(front, h, Progress(Run(front).0, h))
    ensures Gathering(front + [e], h, Progress(Step(Run(front).0, e).0, h))
  {
    var m := Run(front).0;
    if HandleOf(e) != Some(h) {
      OtherLinkUntouched(m, e, h);
      IdleEventKeepsGathering(front, e, h, Progress(m, h));
    } else if h in m || |m| < MAX_LINKS {
      OneOpIsOneStep(m, e, h);
      StepKeepsGathering(front, e, h, Progress(m, h));
    }
  }

  lemma {:induction false} GatheringHolds(evs: seq<Event>, h: u16)
    ensures Gathering(evs, h, Progress(Run(evs).0, h))
  {
    if evs != [] {
      var front, e := evs[..|evs| - 1], evs[|evs| - 1];
      assert evs == front + [e];
      ForSnoc(h, front, e);
      GatheringHolds(front, h);
      EventKeepsGathering(front, e, h);
    }
  }

  lemma DeliveryIsOneStep(m: Links, e: Event, h: u16, pdu: Pdu)
    requires (h, pdu) in Step(m, e).1
    ensures HandleOf(e) == Some(h) && LinkStep(Progress(m, h), OpOf(e)).1 == Some(pdu)
  {
    OneOpIsOneStep(m, e, HandleOf(e).value);
  }

  /**
   Main theorem, for every history of packets, well formed or not, and hang-ups:
   a PDU delivered by the next event is on that event's handle and is exactly the
   announced number of bytes from one start fragment and the continuations after
   it on the same handle, with no restart and no hang-up in between.
   */
  lemma DeliveriesAreExplained(history: seq<Event>, e: Event, h: u16, pdu: Pdu)
    requires (h, pdu) in Step(Run(history).0, e).1
    ensures HandleOf(e) == Some(h)
    ensures exists j: nat | j <= |history| :: Explains(history + [e], j, h, pdu)
  {
    var m := Run(history).0;
    DeliveryIsOneStep(m, e, h, pdu);
    GatheringHolds(history, h);
    StepKeepsGathering(history, e, h, Progress(m, h));
  }
}
