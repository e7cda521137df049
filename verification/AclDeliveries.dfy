/** The exact condition for a delivery: what explains a PDU also makes it be delivered. */
module AclDeliveries {
  import opened Bytes
  import opened Acl
  import opened Reassembly
  import opened AclTheorems

  /** While there is room, a packet on a link is one step of that link. */
  lemma RoomyStep(front: seq<Event>, e: Event, h: u16)
    requires Roomy(front + [e]) && HandleOf(e) == Some(h) && OpOf(e).Piece?
    ensures var m := Run(front).0;
            var (p, pdu) := LinkStep(Progress(m, h), OpOf(e));
            && Progress(Step(m, e).0, h) == p
            && Step(m, e).1 == if pdu.Some? then [(h, pdu.value)] else []
  {
    assert (front + [e])[..|front|] == front;
    LinksAreIndependent(front, h);
    StepKeepsSlotted(front, e);
    OneOpIsOneStep(Run(front).0, e, h);
  }

  lemma AnnouncedIs(payload: seq<byte>, want: nat)
    requires Announces(payload, want)
    ensures Announced(payload) == want
  {
  }

  lemma WantedStep(p: Partial, payload: seq<byte>, want: nat)
    requires p.Valid() && Announced(payload) == want && 0 < want <= 1032 && |payload| <= 1032
    ensures LinkStep(p, Piece(true, payload))
            == if |payload| >= want then (IDLE, Some(payload[..want])) else (Partial(want, payload), None)
  {
    assert [] + payload == payload;
  }

  lemma FirstStep(p: Partial, payload: seq<byte>, want: nat)
    requires p.Valid() && Announces(payload, want) && 0 < want <= 1032 && |payload| <= 1032
    ensures LinkStep(p, Piece(true, payload))
            == if |payload| >= want then (IDLE, Some(payload[..want])) else (Partial(want, payload), None)
  {
    AnnouncedIs(payload, want);
    WantedStep(p, payload, want);
  }

  lemma LaterStep(p: Partial, payload: seq<byte>)
    requires p.Valid() && 0 < p.want <= 1032 && |p.data + payload| <= 1032
    ensures LinkStep(p, Piece(false, payload))
            == if |p.data + payload| >= p.want then (IDLE, Some((p.data + payload)[..p.want]))
               else (Partial(p.want, p.data + payload), None)
  {
  }

  lemma PayloadsGrow(front: seq<Event>, e: Event, j: nat, h: u16)
    requires j < |front| && OpenSince(front + [e], j, h)
    ensures OpenSince(front, j, h) && (front + [e])[j] == front[j]
    ensures Payloads((front + [e])[j..], h)
            == Payloads(front[j..], h) + if HandleOf(e) == Some(h) && OpOf(e).Piece? then OpOf(e).payload else []
  {
    var evs := front + [e];
    PayloadsSnoc(front, j, e, h);
    assert evs[|front|] == e;
    forall k | j < k < |front|
      ensures ContinuesOn(front[k], h)
    {
      assert evs[k] == front[k];
    }
  }

  lemma OneStart(front: seq<Event>, e: Event, h: u16)
    requires OpenSince(front + [e], |front|, h)
    ensures StartsOn(e, h) && Payloads((front + [e])[|front|..], h) == OpOf(e).payload
  {
    PayloadsSnoc(front, |front|, e, h);
    assert front[|front|..] == [];
    assert [] + OpOf(e).payload == OpOf(e).payload;
  }

  lemma RunSnoc(front: seq<Event>, e: Event)
    ensures Run(front + [e]).0 == Step(Run(front).0, e).0
  {
    assert (front + [e])[..|front|] == front;
  }

  /** Until the announced bytes are there, the link has gathered all that came since the start. */
  lemma {:induction false} GathersAll(evs: seq<Event>, j: nat, h: u16, want: nat)
    requires Roomy(evs) && OpenSince(evs, j, h) && Announces(OpOf(evs[j]).payload, want)
    requires |Payloads(evs[j..], h)| < want <= 1032
    ensures Progress(Run(evs).0, h) == Partial(want, Payloads(evs[j..], h))
    decreases |evs|
  {
    var front, e := evs[..|evs| - 1], evs[|evs| - 1];
    assert evs == front + [e];
    RunSnoc(front, e);
    if j == |front| {
      OneStart(front, e, h);
      RoomyStep(front, e, h);
      FirstStep(Progress(Run(front).0, h), OpOf(e).payload, want);
    } else {
      PayloadsGrow(front, e, j, h);
      GathersAll(front, j, h, want);
      if HandleOf(e) == Some(h) {
        RoomyStep(front, e, h);
        LaterStep(Progress(Run(front).0, h), OpOf(e).payload);
      } else {
        OtherLinkUntouched(Run(front).0, e, h);
      }
    }
  }

  lemma ExplainedIsOnHandle(front: seq<Event>, e: Event, j: nat, h: u16, pdu: Pdu)
    requires Explains(front + [e], j, h, pdu)
    ensures HandleOf(e) == Some(h) && OpOf(e).Piece? && (OpOf(e).start <==> j == |front|)
  {
    assert (front + [e])[|front|] == e;
    if j < |front| {
      PayloadsGrow(front, e, j, h);
      assert (front + [e])[j..|front|] == front[j..];
    }
  }

  lemma ExplainedByStart(front: seq<Event>, e: Event, h: u16, pdu: Pdu)
    requires Explains(front + [e], |front|, h, pdu)
    ensures HandleOf(e) == Some(h) && OpOf(e).Piece? && OpOf(e).start
    ensures Announces(OpOf(e).payload, |pdu|) && pdu <= OpOf(e).payload && |OpOf(e).payload| <= 1032
  {
    OneStart(front, e, h);
    assert (front + [e])[|front|] == e;
  }

  lemma WholeStep(p: Partial, payload: seq<byte>, pdu: Pdu)
    requires p.Valid() && Announces(payload, |pdu|) && 0 < |pdu| <= 1032 && pdu <= payload && |payload| <= 1032
    ensures LinkStep(p, Piece(true, payload)).1 == Some(pdu)
  {
    FirstStep(p, payload, |pdu|);
    assert payload[..|pdu|] == pdu;
  }

  /** A first fragment that holds the whole PDU. */
  lemma WholeInOne(front: seq<Event>, e: Event, h: u16, pdu: Pdu)
    requires Roomy(front + [e]) && HandleOf(e) == Some(h) && OpOf(e).Piece? && OpOf(e).start
    requires Announces(OpOf(e).payload, |pdu|) && 0 < |pdu| <= 1032
    requires pdu <= OpOf(e).payload && |OpOf(e).payload| <= 1032
    ensures Step(Run(front).0, e).1 == [(h, pdu)]
  {
    WholeStep(Progress(Run(front).0, h), OpOf(e).payload, pdu);
    RoomyStep(front, e, h);
  }

  lemma ExplainedBefore(front: seq<Event>, e: Event, j: nat, h: u16, pdu: Pdu)
    requires Roomy(front + [e]) && Explains(front + [e], j, h, pdu) && j < |front|
    ensures Progress(Run(front).0, h) == Partial(|pdu|, Payloads(front[j..], h))
  {
    PayloadsGrow(front, e, j, h);
    assert (front + [e])[j..|front|] == front[j..];
    assert (front + [e])[..|front|] == front;
    GathersAll(front, j, h, |pdu|);
  }

  lemma ExplainedIsDelivered(front: seq<Event>, e: Event, j: nat, h: u16, pdu: Pdu)
    requires Roomy(front + [e]) && Explains(front + [e], j, h, pdu)
    ensures Step(Run(front).0, e).1 == [(h, pdu)]
  {
    if j == |front| {
      ExplainedByStart(front, e, h, pdu);
      WholeInOne(front, e, h, pdu);
    } else {
      ExplainedIsOnHandle(front, e, j, h, pdu);
      ExplainedBefore(front, e, j, h, pdu);
      PayloadsGrow(front, e, j, h);
      RoomyStep(front, e, h);
      var all := Payloads(front[j..], h) + OpOf(e).payload;
      assert all[..|pdu|] == pdu;
      LaterStep(Progress(Run(front).0, h), OpOf(e).payload);
    }
  }

  /**
   Main theorem: while at most eight links need a slot, the next event delivers a PDU
   exactly when one start fragment and the continuations after it, up to that event, hold
   the announced bytes for the first time and no more than the buffer takes. So no history
   of other packets, damaged or not, makes a link lose one.
   */
  lemma DeliveredExactlyWhen(history: seq<Event>, e: Event, h: u16, pdu: Pdu)
    requires Roomy(history + [e])
    ensures (h, pdu) in Step(Run(history).0, e).1 <==> exists j: nat :: Explains(history + [e], j, h, pdu)
  {
    if (h, pdu) in Step(Run(history).0, e).1 {
      DeliveriesAreExplained(history, e, h, pdu);
    }
    if j: nat :| Explains(history + [e], j, h, pdu) {
      ExplainedIsDelivered(history, e, j, h, pdu);
    }
  }
}
