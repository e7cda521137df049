/**
 What the controller's answers tell the host: how many commands it may send, its address
 and its packet length, each read off the bytes of the events and nothing else.
 */
module BringupReports {
  import opened Bytes
  import opened CommandQueue
  import opened Bringup
  import opened BringupTheorems

  // ---------------------------------------------------------------------------
  // Credits
  // ---------------------------------------------------------------------------

  /** Byte 0 of a Command Complete, byte 1 of a Command Status. */
  function ReportOf(ev: Event): Option<nat> {
    match ev
    case Complete(p, _) => if |p| >= 3 then Some(p[0]) else None
    case Status(p, _) => if |p| >= 4 then Some(p[1]) else None
    case _ => None
  }

  /** The last report of the run; one command may be sent at the start. */
  function LastReport(evs: seq<Event>): nat {
    if evs == [] then 1
    else if ReportOf(evs[|evs| - 1]).Some? then ReportOf(evs[|evs| - 1]).value
    else LastReport(evs[..|evs| - 1])
  }

  /** How many packets had been sent when it came; `before` had been at the start. */
  function SentAtReport(accept: Transport, s: Engine, before: nat, evs: seq<Event>): nat {
    if evs == [] then before
    else
      var front := evs[..|evs| - 1];
      if ReportOf(evs[|evs| - 1]).Some? then |Run(accept, s, front).q.sent| else SentAtReport(accept, s, before, front)
  }

  /** One credit goes for each packet sent. */
  predicate Spends(q: Queue, r: Queue) {
    q.sent <= r.sent && r.credits + |r.sent| == q.credits + |q.sent|
  }

  lemma {:induction false} PumpSpends(accept: Transport, q: Queue)
    ensures Spends(q, Pump(accept, q))
    decreases |q.pending|
  {
    if q.credits > 0 && q.pending != [] && accept(q.offered) {
      PumpSpends(accept, q.(credits := q.credits - 1, pending := q.pending[1..], offered := q.offered + 1,
                            sent := q.sent + [q.pending[0]], sentSince := q.sentSince + 1));
    }
  }

  lemma SubmitSpends(accept: Transport, q: Queue, present: bool, opcode: u16, params: seq<byte>)
    requires |params| < 0x100
    ensures Spends(q, Submit(accept, q, present, opcode, params).0)
  {
    var packet := Packet(opcode, params);
    PumpSpends(accept, q.(pending := q.pending + [packet], taken := q.taken + [packet]));
  }

  lemma AdvanceSpends(accept: Transport, e: Engine, present: bool, opcode: u16, ret: seq<byte>)
    ensures Spends(e.q, Advance(accept, e, present, opcode, ret).q)
  {
    forall op: u16, params: seq<byte> | |params| < 0x100
      ensures Spends(e.q, Submit(accept, e.q, present, op, params).0)
    {
      SubmitSpends(accept, e.q, present, op, params);
    }
  }

  lemma AnswerSpends(accept: Transport, e: Engine, n: nat, present: bool, opcode: u16, ret: seq<byte>)
    ensures var granted := e.(q := e.q.(credits := n, granted := n, sentSince := 0));
            && Spends(granted.q, Pump(accept, granted.q))
            && Spends(granted.q, Pump(accept, Advance(accept, granted, present, opcode, ret).q))
  {
    var granted := e.(q := e.q.(credits := n, granted := n, sentSince := 0));
    PumpSpends(accept, granted.q);
    AdvanceSpends(accept, granted, present, opcode, ret);
    PumpSpends(accept, Advance(accept, granted, present, opcode, ret).q);
  }

  /** A report replaces the credits before anything is sent on it. */
  lemma StepSpends(accept: Transport, e: Engine, ev: Event)
    ensures var q, r := e.q, Step(accept, e, ev).q;
            && q.sent <= r.sent
            && r.credits + |r.sent| == (if ReportOf(ev).Some? then ReportOf(ev).value else q.credits) + |q.sent|
  {
    match ev
    case Complete(p, present) =>
      if |p| >= 3 {
        AnswerSpends(accept, e, p[0], present, Rd16(p, 1), p[3..]);
      }
    case Status(p, present) =>
      if |p| >= 4 {
        AnswerSpends(accept, e, p[1], present, Rd16(p, 2), []);
      }
    case Command(opcode, params, present) =>
      if |params| < 0x100 {
        SubmitSpends(accept, e.q, present, opcode, params);
      }
    case Poll => PumpSpends(accept, e.q);
  }

  /**
   Main theorem: in every run since start the packets sent since the controller's last
   report and the credits left make up exactly what it reported, so never more are sent.
   */
  lemma {:induction false} SendsStayWithinReport(accept: Transport, e: Engine, evs: seq<Event>)
    ensures var s := Start(accept, e, true);
            var q, at := Run(accept, s, evs).q, SentAtReport(accept, s, |e.q.sent|, evs);
            && at <= |q.sent| && q.credits + (|q.sent| - at) == LastReport(evs)
  {
    var s := Start(accept, e, true);
    if evs == [] {
      SubmitSpends(accept, e.q.(credits := 1, granted := 1, sentSince := 0), true, 0x0C03, []);
    } else {
      var front, ev := evs[..|evs| - 1], evs[|evs| - 1];
      SendsStayWithinReport(accept, e, front);
      StepSpends(accept, Run(accept, s, front), ev);
    }
  }

  /** A command on the wire: opcode, low byte first, length, parameters. */
  lemma PacketBytes(opcode: u16, params: seq<byte>)
    requires |params| < 0x100
    ensures CommandQueue.Packet(opcode, params) == [opcode % 0x100, opcode / 0x100, |params|] + params
  {
  }

  // ---------------------------------------------------------------------------
  // Address and packet length
  // ---------------------------------------------------------------------------

  /** The event answers Read BD_ADDR when that is awaited, with a status byte and six bytes of address. */
  predicate BringsAddress(front: seq<Event>, ev: Event) {
    ev.Complete? && |ev.p| >= 10 && Rd16(ev.p, 1) == 0x1009 && Reached(Answers(front)) == 1
  }

  /** The event answers Read Buffer Size when that is awaited, with a length the host can use. */
  predicate BringsLength(front: seq<Event>, ev: Event) {
    && ev.Complete? && |ev.p| >= 6 && Rd16(ev.p, 1) == 0x1005 && Reached(Answers(front)) == 2
    && 27 <= Rd16(ev.p, 4) <= 1024
  }

  function AddressIn(evs: seq<Event>, before: seq<byte>): seq<byte> {
    if evs == [] then before
    else
      var front, ev := evs[..|evs| - 1], evs[|evs| - 1];
      if BringsAddress(front, ev) then ev.p[4..10] else AddressIn(front, before)
  }

  function LengthIn(evs: seq<Event>, before: nat): nat {
    if evs == [] then before
    else
      var front, ev := evs[..|evs| - 1], evs[|evs| - 1];
      if BringsLength(front, ev) then Rd16(ev.p, 4) else LengthIn(front, before)
  }

  lemma AdvanceLearns(accept: Transport, e: Engine, k: nat, present: bool, opcode: u16, ret: seq<byte>)
    requires At(e, k)
    ensures var r := Advance(accept, e, present, opcode, ret);
            && r.addr == (if k == 1 && opcode == 0x1009 && |ret| >= 7 then ret[1..7] else e.addr)
            && r.mtu == (if k == 2 && opcode == 0x1005 && |ret| >= 3 && 27 <= Rd16(ret, 1) <= 1024
                         then Rd16(ret, 1) else e.mtu)
  {
  }

  lemma StepLearns(accept: Transport, e: Engine, k: nat, ev: Event)
    requires At(e, k)
    ensures var r := Step(accept, e, ev);
            && r.addr == (if ev.Complete? && |ev.p| >= 10 && Rd16(ev.p, 1) == 0x1009 && k == 1
                          then ev.p[4..10] else e.addr)
            && r.mtu == (if ev.Complete? && |ev.p| >= 6 && Rd16(ev.p, 1) == 0x1005 && k == 2
                            && 27 <= Rd16(ev.p, 4) <= 1024
                         then Rd16(ev.p, 4) else e.mtu)
  {
    match ev
    case Complete(p, present) =>
      if |p| >= 3 {
        AdvanceLearns(accept, e.(q := Grant(e.q, p[0])), k, present, Rd16(p, 1), p[3..]);
        assert |p| >= 10 ==> p[3..][1..7] == p[4..10];
        assert |p| >= 6 ==> Rd16(p[3..], 1) == Rd16(p, 4);
      }
    case Status(p, present) =>
      if |p| >= 4 {
        AdvanceLearns(accept, e.(q := Grant(e.q, p[1])), k, present, Rd16(p, 2), []);
      }
    case Command(opcode, params, present) =>
    case Poll =>
  }

  /**
   Main theorem: after any run since start the address is the one brought by the answer to
   Read BD_ADDR, and the packet length the one brought by the answer to Read Buffer Size if
   it lies in [27, 1024]; nothing else changes either.
   */
  lemma {:induction false} AnswersAreLearnt(accept: Transport, e: Engine, evs: seq<Event>)
    ensures var r := Run(accept, Start(accept, e, true), evs);
            r.addr == AddressIn(evs, e.addr) && r.mtu == LengthIn(evs, e.mtu)
  {
    var s := Start(accept, e, true);
    StartBegins(accept, e);
    if evs != [] {
      var front, ev := evs[..|evs| - 1], evs[|evs| - 1];
      AnswersAreLearnt(accept, e, front);
      RunFollowsChain(accept, s, front);
      StepLearns(accept, Run(accept, s, front), Reached(Answers(front)), ev);
    }
  }
}
