/**
 Bring-up and the command queue over whole runs: ready comes exactly when the
 eleven chain commands have been answered in order, whatever else happens in
 between, and every run keeps the queue a FIFO within its credits.
 */
module BringupTheorems {
  import opened Bytes
  import opened CommandQueue
  import opened Bringup

  /**
   The chain by opcode: Reset, Read BD_ADDR, Read Buffer Size, Set Event Mask, Write Simple
   Pairing Mode, Write Class of Device, Write Local Name, Write Scan Enable, Write LE Host
   Support, LE Set Event Mask, LE Read Buffer Size.
   */
  const CHAIN: seq<u16> := [
    0x0C03, 0x1009, 0x1005, 0x0C01, 0x0C56, 0x0C24, 0x0C13, 0x0C1A, 0x0C6D, 0x2001, 0x2002]

  /** The parameters each chain command carries. */
  function ChainParams(k: nat): (p: seq<byte>)
    requires k < |CHAIN|
    ensures |p| < 0x100
  {
    if k == 3 then seq(8, _ => 0xFF)
    else if k == 4 then [1]
    else if k == 5 then [0x04, 0x01, 0x00]
    else if k == 6 then [0x4D, 0x61, 0x79, 0x74, 0x65, 0x72, 0x61, 0x4F, 0x53] + seq(239, _ => 0)
    else if k == 7 then [0x03]
    else if k == 8 then [0x01, 0x00]
    else if k == 9 then [0x1F, 0, 0, 0, 0, 0, 0, 0]
    else []
  }

  // ---------------------------------------------------------------------------
  // Answers and how far they reach into the chain
  // ---------------------------------------------------------------------------

  /** The opcode an event answers: a completion, or a status that reports failure. */
  function Answered(ev: Event): Option<u16> {
    match ev
    case Complete(p, _) => if |p| >= 3 then Some(Rd16(p, 1)) else None
    case Status(p, _) => if |p| >= 4 && p[0] != 0 then Some(Rd16(p, 2)) else None
    case _ => None
  }

  function Answers(evs: seq<Event>): seq<u16> {
    if evs == [] then []
    else
      var a := Answered(evs[|evs| - 1]);
      Answers(evs[..|evs| - 1]) + if a.Some? then [a.value] else []
  }

  /** The chain position after an answer, if there is one. */
  function Onward(k: nat, a: Option<u16>): nat {
    if k < |CHAIN| && a == Some(CHAIN[k]) then k + 1 else k
  }

  /** Greedy matching of the chain against a list of answers. */
  function Reached(answers: seq<u16>): (k: nat)
    ensures k <= |CHAIN|
  {
    if answers == [] then 0 else Onward(Reached(answers[..|answers| - 1]), Some(answers[|answers| - 1]))
  }

  /** `at` places the letters of `word` in `text`, in order. */
  predicate Places<T(==)>(word: seq<T>, text: seq<T>, at: seq<int>) {
    && |at| == |word|
    && (forall i | 0 <= i < |at| :: 0 <= at[i] < |text| && text[at[i]] == word[i])
    && (forall i, j | 0 <= i < j < |at| :: at[i] < at[j])
  }

  ghost predicate Subsequence<T>(word: seq<T>, text: seq<T>) {
    exists at :: Places(word, text, at)
  }

  lemma {:induction false} ReachedIsPlaced(answers: seq<u16>)
    ensures Subsequence(CHAIN[..Reached(answers)], answers)
  {
    if answers == [] {
      assert Places<u16>([], [], []);
      assert CHAIN[..0] == [];
    } else {
      var n := |answers| - 1;
      var front := answers[..n];
      ReachedIsPlaced(front);
      var k := Reached(front);
      var at :| Places(CHAIN[..k], front, at);
      if Reached(answers) == k {
        assert Places(CHAIN[..k], answers, at);
      } else {
        assert Places(CHAIN[..k + 1], answers, at + [n]);
      }
    }
  }

  lemma {:induction false} PlacedIsReached(answers: seq<u16>, j: nat, at: seq<int>)
    requires j <= |CHAIN| && Places(CHAIN[..j], answers, at)
    ensures j <= Reached(answers)
  {
    if j > 0 {
      assert at[j - 1] < |answers|;
      var n := |answers| - 1;
      var front := answers[..n];
      if at[j - 1] == n {
        assert Places(CHAIN[..j - 1], front, at[..j - 1]);
        PlacedIsReached(front, j - 1, at[..j - 1]);
      } else {
        assert forall i | 0 <= i < j :: at[i] <= at[j - 1] < n;
        assert Places(CHAIN[..j], front, at);
        PlacedIsReached(front, j, at);
      }
    }
  }

  lemma ReachedAllIff(answers: seq<u16>)
    ensures Reached(answers) == |CHAIN| <==> Subsequence(CHAIN, answers)
  {
    assert CHAIN[..|CHAIN|] == CHAIN;
    if Reached(answers) == |CHAIN| {
      ReachedIsPlaced(answers);
    }
    if at :| Places(CHAIN, answers, at) {
      PlacedIsReached(answers, |CHAIN|, at);
    }
  }

  // ---------------------------------------------------------------------------
  // The engine follows the chain
  // ---------------------------------------------------------------------------

  /** The engine stands at chain position k. */
  predicate At(e: Engine, k: nat) {
    k <= |CHAIN| && e.wait == (if k < |CHAIN| then CHAIN[k] else 0) && (e.ready <==> k == |CHAIN|)
  }

  lemma AdvanceMoves(accept: Transport, e: Engine, k: nat, present: bool, opcode: u16, ret: seq<byte>)
    requires At(e, k)
    ensures var r := Advance(accept, e, present, opcode, ret);
            if k < |CHAIN| && opcode == CHAIN[k] then
              && At(r, k + 1)
              && r.q == if k + 1 < |CHAIN|
                        then Submit(accept, e.q, present, CHAIN[k + 1], ChainParams(k + 1)).0 else e.q
            else r == e
  {
  }

  lemma StepFollowsChain(accept: Transport, e: Engine, k: nat, ev: Event)
    requires At(e, k)
    ensures At(Step(accept, e, ev), Onward(k, Answered(ev)))
  {
    match ev
    case Complete(p, present) =>
      if |p| >= 3 {
        var granted := e.(q := Grant(e.q, p[0]));
        AdvanceMoves(accept, granted, k, present, Rd16(p, 1), p[3..]);
      }
    case Status(p, present) =>
      if |p| >= 4 {
        var granted := e.(q := Grant(e.q, p[1]));
        AdvanceMoves(accept, granted, k, present, Rd16(p, 2), []);
      }
    case Command(opcode, params, present) =>
    case Poll =>
  }

  lemma StartBegins(accept: Transport, e: Engine)
    ensures At(Start(accept, e, true), 0)
  {
  }

  lemma ReachedSnoc(front: seq<Event>, ev: Event)
    ensures Reached(Answers(front + [ev])) == Onward(Reached(Answers(front)), Answered(ev))
  {
    var evs, before := front + [ev], Answers(front);
    assert evs[..|evs| - 1] == front;
    if Answered(ev).Some? {
      assert (before + [Answered(ev).value])[..|before|] == before;
    } else {
      assert before + [] == before;
    }
  }

  lemma {:induction false} RunFollowsChain(accept: Transport, e: Engine, evs: seq<Event>)
    requires At(e, 0)
    ensures At(Run(accept, e, evs), Reached(Answers(evs)))
  {
    if evs != [] {
      var front, ev := evs[..|evs| - 1], evs[|evs| - 1];
      assert evs == front + [ev];
      RunFollowsChain(accept, e, front);
      StepFollowsChain(accept, Run(accept, e, front), Reached(Answers(front)), ev);
      ReachedSnoc(front, ev);
    }
  }

  /**
   Main theorem. After `hci_start_bringup`, in any engine state and for every run of
   events, commands of other users, refusals and missing transports included: the
   controller is ready if and only if answers to all eleven chain commands have
   arrived in chain order.
   */
  lemma ReadyExactlyWhenChainAnswered(accept: Transport, e: Engine, evs: seq<Event>)
    ensures Run(accept, Start(accept, e, true), evs).ready <==> Subsequence(CHAIN, Answers(evs))
  {
    StartBegins(accept, e);
    RunFollowsChain(accept, Start(accept, e, true), evs);
    ReachedAllIff(Answers(evs));
  }

  /** An answer to anything but the awaited command only moves credits and the queue. */
  lemma StrayAnswerOnlyPumps(accept: Transport, e: Engine, k: nat, ev: Event)
    requires At(e, k) && (k < |CHAIN| ==> Answered(ev) != Some(CHAIN[k]))
    requires ev.Complete? || ev.Status?
    ensures var r := Step(accept, e, ev);
            && (r.wait, r.ready, r.mtu, r.addr) == (e.wait, e.ready, e.mtu, e.addr)
            && (r.q == e.q || exists n: nat :: r.q == Pump(accept, Grant(e.q, n)))
  {
    if ev.Complete? && |ev.p| >= 3 {
      AdvanceMoves(accept, e.(q := Grant(e.q, ev.p[0])), k, ev.present, Rd16(ev.p, 1), ev.p[3..]);
      assert Step(accept, e, ev).q == Pump(accept, Grant(e.q, ev.p[0]));
    } else if ev.Status? && |ev.p| >= 4 {
      AdvanceMoves(accept, e.(q := Grant(e.q, ev.p[1])), k, ev.present, Rd16(ev.p, 2), []);
      assert Step(accept, e, ev).q == Pump(accept, Grant(e.q, ev.p[1]));
    }
  }

  // ---------------------------------------------------------------------------
  // What every run keeps
  // ---------------------------------------------------------------------------

  lemma StepKeepsFifo(accept: Transport, e: Engine, ev: Event)
    requires Fifo(e.q) && 27 <= e.mtu <= 1024
    ensures Fifo(Step(accept, e, ev).q) && 27 <= Step(accept, e, ev).mtu <= 1024
  {
    match ev
    case Complete(p, present) =>
      if |p| >= 3 {
        var granted := e.(q := Grant(e.q, p[0]));
        AdvanceKeepsFifo(accept, granted, present, Rd16(p, 1), p[3..]);
        PumpIsFifo(accept, granted.q);
        PumpIsFifo(accept, Advance(accept, granted, present, Rd16(p, 1), p[3..]).q);
      }
    case Status(p, present) =>
      if |p| >= 4 {
        var granted := e.(q := Grant(e.q, p[1]));
        AdvanceKeepsFifo(accept, granted, present, Rd16(p, 2), []);
        PumpIsFifo(accept, granted.q);
        PumpIsFifo(accept, Advance(accept, granted, present, Rd16(p, 2), []).q);
      }
    case Command(opcode, params, present) =>
      if |params| < 0x100 {
        SubmitIsFifo(accept, e.q, present, opcode, params);
      }
    case Poll => PumpIsFifo(accept, e.q);
  }

  lemma AdvanceKeepsFifo(accept: Transport, e: Engine, present: bool, opcode: u16, ret: seq<byte>)
    requires Fifo(e.q) && 27 <= e.mtu <= 1024
    ensures var r := Advance(accept, e, present, opcode, ret);
            Fifo(r.q) && 27 <= r.mtu <= 1024
  {
    forall op: u16, params: seq<byte> | |params| < 0x100
      ensures Fifo(Submit(accept, e.q, present, op, params).0)
    {
      SubmitIsFifo(accept, e.q, present, op, params);
    }
  }

  /**
   Main theorem. Over every run the accepted commands are the sent ones followed by
   the pending ones, byte for byte and in order; credits left plus packets sent since
   the last report equal that report; and the ACL packet size stays in [27, 1024].
   */
  lemma {:induction false} RunKeepsFifo(accept: Transport, e: Engine, evs: seq<Event>)
    requires Fifo(e.q) && 27 <= e.mtu <= 1024
    ensures Fifo(Run(accept, e, evs).q) && 27 <= Run(accept, e, evs).mtu <= 1024
  {
    if evs != [] {
      RunKeepsFifo(accept, e, evs[..|evs| - 1]);
      StepKeepsFifo(accept, Run(accept, e, evs[..|evs| - 1]), evs[|evs| - 1]);
    }
  }

  // ---------------------------------------------------------------------------
  // A controller that answers
  // ---------------------------------------------------------------------------

  function ChainPackets(n: nat): seq<Cmd>
    requires n <= |CHAIN|
  {
    if n == 0 then [] else ChainPackets(n - 1) + [CommandQueue.Packet(CHAIN[n - 1], ChainParams(n - 1))]
  }

  /** evs[i] completes chain command i and grants at least one credit. */
  predicate AnswersInTurn(evs: seq<Event>) {
    && |evs| <= |CHAIN|
    && forall i | 0 <= i < |evs| ::
         evs[i].Complete? && evs[i].present && |evs[i].p| >= 3 && evs[i].p[0] >= 1 && Rd16(evs[i].p, 1) == CHAIN[i]
  }

  /**
   Main theorem. With a willing transport, an empty queue and a controller that
   answers each command with a credit, each answer moves the chain one step: after n
   answers the wire holds the first n+1 chain packets, byte exact, and after exactly
   eleven the controller is ready.
   */
  lemma {:induction false} ElevenAnswersMakeReady(accept: Transport, e: Engine, evs: seq<Event>)
    requires (forall k :: accept(k)) && e.q.pending == [] && AnswersInTurn(evs)
    ensures var r := Run(accept, Start(accept, e, true), evs);
            && At(r, |evs|) && r.q.pending == []
            && r.q.sent == e.q.sent + ChainPackets(Min(|evs| + 1, |CHAIN|))
  {
    if evs == [] {
      StartSendsReset(accept, e);
    } else {
      var n := |evs| - 1;
      ElevenAnswersMakeReady(accept, e, evs[..n]);
      AnswerSendsNext(accept, Run(accept, Start(accept, e, true), evs[..n]), n, evs[n]);
      PacketsGrow(e.q.sent, n);
    }
  }

  function NextPacket(k: nat): seq<Cmd> {
    if k + 1 < |CHAIN| then [CommandQueue.Packet(CHAIN[k + 1], ChainParams(k + 1))] else []
  }

  lemma PacketsGrow(base: seq<Cmd>, n: nat)
    requires n < |CHAIN|
    ensures base + ChainPackets(n + 1) + NextPacket(n) == base + ChainPackets(Min(n + 2, |CHAIN|))
  {
    if n + 1 < |CHAIN| {
      assert ChainPackets(n + 2) == ChainPackets(n + 1) + NextPacket(n);
    }
  }

  lemma StartSendsReset(accept: Transport, e: Engine)
    requires (forall k :: accept(k)) && e.q.pending == []
    ensures var r := Start(accept, e, true);
            At(r, 0) && r.q.pending == [] && r.q.sent == e.q.sent + ChainPackets(1)
  {
    var packet := CommandQueue.Packet(RESET, []);
    WillingPump(accept, Grant(e.q, 1).(pending := [packet], taken := e.q.taken + [packet]));
    var one: seq<Cmd> := [packet];
    assert e.q.pending + one == one && one[..1] == one && one[1..] == [];
    assert ChainPackets(0) == [] && ChainPackets(1) == one;
  }

  lemma AnswerSendsNext(accept: Transport, e: Engine, k: nat, ev: Event)
    requires (forall k :: accept(k)) && k < |CHAIN| && At(e, k) && e.q.pending == []
    requires ev.Complete? && ev.present && |ev.p| >= 3 && ev.p[0] >= 1 && Rd16(ev.p, 1) == CHAIN[k]
    ensures var r := Step(accept, e, ev);
            && At(r, k + 1) && r.q.pending == []
            && r.q.sent == e.q.sent + NextPacket(k)
  {
    var granted := e.(q := Grant(e.q, ev.p[0]));
    StepFollowsChain(accept, e, k, ev);
    AdvanceMoves(accept, granted, k, true, CHAIN[k], ev.p[3..]);
    var moved := Advance(accept, granted, true, CHAIN[k], ev.p[3..]);
    if k + 1 < |CHAIN| {
      var packet := CommandQueue.Packet(CHAIN[k + 1], ChainParams(k + 1));
      WillingPump(accept, granted.q.(pending := [packet], taken := granted.q.taken + [packet]));
      var one: seq<Cmd> := [packet];
      assert e.q.pending + one == one && one[..1] == one && one[1..] == [];
    }
    assert Step(accept, e, ev).q == Pump(accept, moved.q);
  }
}
