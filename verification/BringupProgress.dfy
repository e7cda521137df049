/**
 Bring-up with other users of the queue. Whatever they submit, as long as no chain
 command was refused, the chain's commands are in the queue in order, and a willing
 transport has them on the wire once enough credits have come.
 */
module BringupProgress {
  import opened Bytes
  import opened CommandQueue
  import opened Bringup
  import opened BringupTheorems

  function ChainPacket(k: nat): Cmd
    requires k < |CHAIN|
  {
    CommandQueue.Packet(CHAIN[k], ChainParams(k))
  }

  // ---------------------------------------------------------------------------
  // What one event adds to the queue
  // ---------------------------------------------------------------------------

  /** The event answers the awaited command, and another one follows. */
  predicate Continues(k: nat, ev: Event) {
    k + 1 < |CHAIN| && Answered(ev) == Some(CHAIN[k])
  }

  predicate HasRoom(q: Queue, ev: Event) {
    (ev.Complete? || ev.Status?) && ev.present && |q.pending| < DEPTH - 1
  }

  lemma AnswerTakes(accept: Transport, e: Engine, k: nat, n: nat, present: bool, opcode: u16, ret: seq<byte>)
    requires Fifo(e.q) && At(e, k)
    ensures var r := Advance(accept, e.(q := Grant(e.q, n)), present, opcode, ret);
            && Fifo(r.q)
            && (if k + 1 < |CHAIN| && opcode == CHAIN[k] && present && |e.q.pending| < DEPTH - 1
                then r.q.taken == e.q.taken + [ChainPacket(k + 1)] else r.q.taken == e.q.taken)
  {
    var granted := e.(q := Grant(e.q, n));
    AdvanceMoves(accept, granted, k, present, opcode, ret);
    if k + 1 < |CHAIN| && opcode == CHAIN[k] {
      SubmitIsFifo(accept, granted.q, present, CHAIN[k + 1], ChainParams(k + 1));
    }
  }

  lemma CompleteTakes(accept: Transport, e: Engine, k: nat, p: seq<byte>, present: bool)
    requires Fifo(e.q) && At(e, k) && |p| >= 3
    ensures var r := OnComplete(accept, e, p, present);
            && Fifo(r.q)
            && r.q.taken == e.q.taken + (if k + 1 < |CHAIN| && Rd16(p, 1) == CHAIN[k]
                                            && present && |e.q.pending| < DEPTH - 1
                                         then [ChainPacket(k + 1)] else [])
  {
    AnswerTakes(accept, e, k, p[0], present, Rd16(p, 1), p[3..]);
    var granted := e.(q := Grant(e.q, p[0]));
    var moved := if Rd16(p, 1) != 0 then Advance(accept, granted, present, Rd16(p, 1), p[3..]) else granted;
    PumpIsFifo(accept, moved.q);
    assert e.q.taken + [] == e.q.taken;
  }

  lemma StatusTakes(accept: Transport, e: Engine, k: nat, p: seq<byte>, present: bool)
    requires Fifo(e.q) && At(e, k) && |p| >= 4
    ensures var r := OnStatus(accept, e, p, present);
            && Fifo(r.q)
            && r.q.taken == e.q.taken + (if k + 1 < |CHAIN| && p[0] != 0 && Rd16(p, 2) == CHAIN[k]
                                            && present && |e.q.pending| < DEPTH - 1
                                         then [ChainPacket(k + 1)] else [])
  {
    AnswerTakes(accept, e, k, p[1], present, Rd16(p, 2), []);
    var granted := e.(q := Grant(e.q, p[1]));
    var moved := if p[0] != 0 && Rd16(p, 2) == e.wait then Advance(accept, granted, present, Rd16(p, 2), [])
                 else granted;
    PumpIsFifo(accept, moved.q);
    assert e.q.taken + [] == e.q.taken;
  }

  /** A command of another user, as the packet it becomes. */
  predicate IsUsers(ev: Event, x: Cmd) {
    ev.Command? && |ev.params| < 0x100 && x == CommandQueue.Packet(ev.opcode, ev.params)
  }

  /** Nothing is accepted at the event, or one packet of another user's. */
  predicate OnlyUsers(before: seq<Cmd>, after: seq<Cmd>, ev: Event) {
    before <= after && (after == before || (|after| == |before| + 1 && IsUsers(ev, after[|before|])))
  }

  lemma StepTakes(accept: Transport, e: Engine, k: nat, ev: Event)
    requires Fifo(e.q) && At(e, k)
    ensures Fifo(Step(accept, e, ev).q)
    ensures if Continues(k, ev) && HasRoom(e.q, ev) then Step(accept, e, ev).q.taken == e.q.taken + [ChainPacket(k + 1)]
            else OnlyUsers(e.q.taken, Step(accept, e, ev).q.taken, ev)
  {
    match ev
    case Complete(p, present) => if |p| >= 3 { CompleteTakes(accept, e, k, p, present); }
    case Status(p, present) => if |p| >= 4 { StatusTakes(accept, e, k, p, present); }
    case Command(opcode, params, present) =>
      if |params| < 0x100 {
        SubmitIsFifo(accept, e.q, present, opcode, params);
      }
    case Poll => PumpIsFifo(accept, e.q);
  }

  // ---------------------------------------------------------------------------
  // The chain stays queued
  // ---------------------------------------------------------------------------

  /** Every chain command found a transport and a free slot when its turn came. */
  predicate NeverRefused(accept: Transport, e: Engine, evs: seq<Event>) {
    evs == [] ||
    (var front, ev := evs[..|evs| - 1], evs[|evs| - 1];
     && NeverRefused(accept, e, front)
     && (Continues(Reached(Answers(front)), ev) ==> HasRoom(Run(accept, e, front).q, ev)))
  }

  lemma PlacesOn<T>(word: seq<T>, text: seq<T>, at: seq<int>, more: seq<T>)
    requires Places(word, text, at) && text <= more
    ensures Places(word, more, at)
  {
  }

  lemma PlacesSnoc<T>(word: seq<T>, text: seq<T>, at: seq<int>, x: T)
    requires Places(word, text, at)
    ensures Places(word + [x], text + [x], at + [|text|])
  {
    var w, s, a := word + [x], text + [x], at + [|text|];
    forall i | 0 <= i < |a|
      ensures 0 <= a[i] < |s| && s[a[i]] == w[i]
    {
      if i < |at| {
        assert a[i] == at[i] && text[at[i]] == word[i];
      }
    }
  }

  /** How much of the chain must be queued when answers have reached position k. */
  function Due(k: nat): (n: nat)
    ensures n <= |CHAIN|
  {
    Min(k + 1, |CHAIN|)
  }

  /** The due chain commands are among the commands accepted since `base`, in order. */
  ghost predicate Queued(base: nat, taken: seq<Cmd>, k: nat) {
    base <= |taken| && Subsequence(ChainPackets(Due(k)), taken[base..])
  }

  lemma QueuedOn(base: nat, taken: seq<Cmd>, more: seq<Cmd>, k: nat)
    requires Queued(base, taken, k) && taken <= more
    ensures Queued(base, more, k)
  {
    var at :| Places(ChainPackets(Due(k)), taken[base..], at);
    assert taken[base..] <= more[base..] by {
      assert more[base..][..|taken| - base] == taken[base..];
    }
    PlacesOn(ChainPackets(Due(k)), taken[base..], at, more[base..]);
  }

  lemma QueuedNext(base: nat, taken: seq<Cmd>, k: nat)
    requires Queued(base, taken, k) && k + 1 < |CHAIN|
    ensures Queued(base, taken + [ChainPacket(k + 1)], k + 1)
  {
    var x := ChainPacket(k + 1);
    var at :| Places(ChainPackets(Due(k)), taken[base..], at);
    PlacesSnoc(ChainPackets(Due(k)), taken[base..], at, x);
    assert (taken + [x])[base..] == taken[base..] + [x];
    assert ChainPackets(k + 2) == ChainPackets(k + 1) + [x];
  }

  lemma StartQueues(accept: Transport, e: Engine)
    requires Fifo(e.q) && |e.q.pending| < DEPTH - 1
    ensures var s := Start(accept, e, true);
            Fifo(s.q) && At(s, 0) && Queued(|e.q.taken|, s.q.taken, 0)
  {
    SubmitIsFifo(accept, Grant(e.q, 1), true, RESET, []);
    StartBegins(accept, e);
    var s := Start(accept, e, true);
    var x := ChainPacket(0);
    assert s.q.taken[|e.q.taken|..] == [x];
    assert ChainPackets(0) == [];
    assert ChainPackets(1) == [x];
    assert Places([x], [x], [0]);
  }

  lemma StepQueues(accept: Transport, e: Engine, base: nat, k: nat, ev: Event)
    requires Fifo(e.q) && At(e, k) && Queued(base, e.q.taken, k)
    requires Continues(k, ev) ==> HasRoom(e.q, ev)
    ensures Queued(base, Step(accept, e, ev).q.taken, Onward(k, Answered(ev)))
  {
    StepTakes(accept, e, k, ev);
    if Continues(k, ev) {
      QueuedNext(base, e.q.taken, k);
    } else {
      QueuedOn(base, e.q.taken, Step(accept, e, ev).q.taken, k);
    }
  }

  /**
   Main theorem: after any run of answers, stray answers, polls and other users' commands
   in which no chain command was refused, the chain commands up to the awaited one have
   all been accepted since the start, in order.
   */
  lemma {:induction false} AwaitedIsQueued(accept: Transport, e: Engine, evs: seq<Event>)
    requires Fifo(e.q) && |e.q.pending| < DEPTH - 1 && NeverRefused(accept, Start(accept, e, true), evs)
    ensures var r := Run(accept, Start(accept, e, true), evs);
            Fifo(r.q) && At(r, Reached(Answers(evs))) && Queued(|e.q.taken|, r.q.taken, Reached(Answers(evs)))
  {
    var s := Start(accept, e, true);
    StartQueues(accept, e);
    if evs != [] {
      var front, ev := evs[..|evs| - 1], evs[|evs| - 1];
      AwaitedIsQueued(accept, e, front);
      var r, k := Run(accept, s, front), Reached(Answers(front));
      StepTakes(accept, r, k, ev);
      StepFollowsChain(accept, r, k, ev);
      StepQueues(accept, r, |e.q.taken|, k, ev);
      assert evs == front + [ev];
      ReachedSnoc(front, ev);
    }
  }

  // ---------------------------------------------------------------------------
  // Credits bring it to the wire
  // ---------------------------------------------------------------------------

  ghost predicate Willing(accept: Transport) {
    forall k :: accept(k)
  }

  /** An answer that brings at least one credit. */
  predicate Credits(ev: Event) {
    (ev.Complete? && |ev.p| >= 3 && ev.p[0] >= 1) || (ev.Status? && |ev.p| >= 4 && ev.p[1] >= 1)
  }

  function CreditCount(evs: seq<Event>): nat {
    if evs == [] then 0 else CreditCount(evs[..|evs| - 1]) + if Credits(evs[|evs| - 1]) then 1 else 0
  }

  /** Nothing accepted is forgotten, and at least n more of what was pending are sent. */
  predicate Sends(q: Queue, r: Queue, n: nat) {
    Fifo(r) && q.taken <= r.taken && |r.sent| >= Min(|q.sent| + n, |q.taken|)
  }

  lemma PumpSends(accept: Transport, q: Queue, n: nat)
    requires Fifo(q) && Willing(accept) && n <= q.credits
    ensures Sends(q, Pump(accept, q), n)
  {
    PumpIsFifo(accept, q);
    PumpSendsMany(accept, q);
  }

  lemma PumpSendsMany(accept: Transport, q: Queue)
    requires Fifo(q) && Willing(accept)
    ensures |Pump(accept, q).sent| == Min(|q.sent| + q.credits, |q.taken|)
  {
    WillingPump(accept, q);
    assert |q.taken| == |q.sent| + |q.pending|;
  }

  lemma SubmitSends(accept: Transport, q: Queue, present: bool, opcode: u16, params: seq<byte>, n: nat)
    requires Fifo(q) && Willing(accept) && n <= q.credits && |params| < 0x100 && present && |q.pending| < DEPTH - 1
    ensures Sends(q, Submit(accept, q, present, opcode, params).0, n)
  {
    var packet := Packet(opcode, params);
    var added := q.(pending := q.pending + [packet], taken := q.taken + [packet]);
    assert added.taken == added.sent + added.pending;
    PumpSends(accept, added, n);
  }

  lemma AnswerSends(
    accept: Transport, e: Engine, k: nat, credits: nat, present: bool, opcode: u16, ret: seq<byte>, n: nat)
    requires Fifo(e.q) && Willing(accept) && At(e, k) && n <= credits
    ensures var granted := e.(q := Grant(e.q, credits));
            && Sends(e.q, Pump(accept, Advance(accept, granted, present, opcode, ret).q), n)
            && Sends(e.q, Pump(accept, granted.q), n)
  {
    var granted := e.(q := Grant(e.q, credits));
    AdvanceMoves(accept, granted, k, present, opcode, ret);
    PumpSends(accept, granted.q, n);
    if k + 1 < |CHAIN| && opcode == CHAIN[k] && present && |e.q.pending| < DEPTH - 1 {
      SubmitSends(accept, granted.q, present, CHAIN[k + 1], ChainParams(k + 1), n);
      var s := Submit(accept, granted.q, present, CHAIN[k + 1], ChainParams(k + 1)).0;
      PumpSends(accept, s, 0);
    }
  }

  lemma StepSends(accept: Transport, e: Engine, k: nat, ev: Event)
    requires Fifo(e.q) && Willing(accept) && At(e, k)
    ensures Sends(e.q, Step(accept, e, ev).q, if Credits(ev) then 1 else 0)
  {
    match ev
    case Complete(p, present) =>
      if |p| >= 3 {
        AnswerSends(accept, e, k, p[0], present, Rd16(p, 1), p[3..], if Credits(ev) then 1 else 0);
      }
    case Status(p, present) =>
      if |p| >= 4 {
        AnswerSends(accept, e, k, p[1], present, Rd16(p, 2), [], if Credits(ev) then 1 else 0);
      }
    case Command(opcode, params, present) =>
      if |params| < 0x100 && present && |e.q.pending| < DEPTH - 1 {
        SubmitSends(accept, e.q, present, opcode, params, 0);
      }
    case Poll => PumpSends(accept, e.q, 0);
  }

  lemma {:induction false} RunSends(accept: Transport, e: Engine, k: nat, evs: seq<Event>)
    requires Fifo(e.q) && Willing(accept) && At(e, k)
    ensures Sends(e.q, Run(accept, e, evs).q, CreditCount(evs)) && exists j :: At(Run(accept, e, evs), j)
  {
    if evs == [] {
      assert At(Run(accept, e, evs), k);
    } else {
      var front, ev := evs[..|evs| - 1], evs[|evs| - 1];
      RunSends(accept, e, k, front);
      var r := Run(accept, e, front);
      var j :| At(r, j);
      StepSends(accept, r, j, ev);
      StepFollowsChain(accept, r, j, ev);
    }
  }

  /**
   Main theorem: with a willing transport, fifteen more answers with a credit bring every
   due chain command to the wire, in order, whatever else is queued before or between
   them; so the controller has received the command whose answer is awaited.
   */
  lemma AwaitedReachesTheWire(accept: Transport, e: Engine, evs: seq<Event>, more: seq<Event>)
    requires Fifo(e.q) && Willing(accept) && |e.q.pending| < DEPTH - 1
    requires NeverRefused(accept, Start(accept, e, true), evs) && CreditCount(more) >= DEPTH - 1
    ensures var r := Run(accept, Run(accept, Start(accept, e, true), evs), more);
            Queued(|e.q.taken|, r.q.sent, Reached(Answers(evs)))
  {
    AwaitedIsQueued(accept, e, evs);
    var k, mid := Reached(Answers(evs)), Run(accept, Start(accept, e, true), evs);
    RunSends(accept, mid, k, more);
    var r := Run(accept, mid, more);
    assert mid.q.taken <= r.q.taken && |mid.q.taken| <= |r.q.sent|;
    assert r.q.sent == r.q.taken[..|r.q.sent|];
    QueuedOn(|e.q.taken|, mid.q.taken, r.q.sent, k);
  }

  // ---------------------------------------------------------------------------
  // The stall
  // ---------------------------------------------------------------------------

  /** Every packet accepted from index `base` on is another user's. */
  ghost predicate AllUsers(taken: seq<Cmd>, base: nat, evs: seq<Event>) {
    forall j | base <= j < |taken| :: exists i | 0 <= i < |evs| :: IsUsers(evs[i], taken[j])
  }

  lemma AllUsersOn(taken: seq<Cmd>, base: nat, evs: seq<Event>, after: seq<Cmd>, ev: Event)
    requires AllUsers(taken, base, evs) && OnlyUsers(taken, after, ev)
    ensures AllUsers(after, base, evs + [ev])
  {
    var all := evs + [ev];
    assert all[|evs|] == ev && forall i | 0 <= i < |evs| :: all[i] == evs[i];
    forall j: nat | base <= j < |after|
      ensures exists i | 0 <= i < |all| :: IsUsers(all[i], after[j])
    {
      if j < |taken| {
        var i :| 0 <= i < |evs| && IsUsers(evs[i], taken[j]);
        assert after[j] == taken[j] && IsUsers(all[i], after[j]);
      } else {
        assert j == |taken| && IsUsers(all[|evs|], after[j]);
      }
    }
  }

  predicate NoneAnswers(k: nat, evs: seq<Event>)
    requires k < |CHAIN|
  {
    forall i | 0 <= i < |evs| :: Answered(evs[i]) != Some(CHAIN[k])
  }

  /** While the awaited command is not answered the chain stands still and adds nothing to the queue. */
  lemma {:induction false} ChainStandsStill(accept: Transport, e: Engine, k: nat, evs: seq<Event>)
    requires Fifo(e.q) && k < |CHAIN| && At(e, k) && NoneAnswers(k, evs)
    ensures var r := Run(accept, e, evs);
            Fifo(r.q) && At(r, k) && e.q.taken <= r.q.taken && AllUsers(r.q.taken, |e.q.taken|, evs)
  {
    if evs != [] {
      var front, ev := evs[..|evs| - 1], evs[|evs| - 1];
      ChainStandsStill(accept, e, k, front);
      var r := Run(accept, e, front);
      StepTakes(accept, r, k, ev);
      StepFollowsChain(accept, r, k, ev);
      AllUsersOn(r.q.taken, |e.q.taken|, front, Step(accept, r, ev).q.taken, ev);
      assert evs == front + [ev];
    }
  }

  /**
   Main theorem: when a chain command is refused, by a full queue or a missing transport,
   the chain still moves on to await its answer. From then on, until an answer to a
   command that was never accepted, every packet accepted is another user's and the
   controller is not ready.
   */
  lemma RefusalStalls(accept: Transport, e: Engine, k: nat, ev: Event, more: seq<Event>)
    requires Fifo(e.q) && At(e, k) && Continues(k, ev) && !HasRoom(e.q, ev) && NoneAnswers(k + 1, more)
    ensures var r := Run(accept, Step(accept, e, ev), more);
            At(r, k + 1) && !r.ready && e.q.taken <= r.q.taken && AllUsers(r.q.taken, |e.q.taken|, more)
  {
    StepTakes(accept, e, k, ev);
    StepFollowsChain(accept, e, k, ev);
    var m := Step(accept, e, ev);
    assert m.q.taken == e.q.taken;
    ChainStandsStill(accept, m, k + 1, more);
  }

  predicate Commands(evs: seq<Event>) {
    forall i | 0 <= i < |evs| :: evs[i].Command? && evs[i].present && |evs[i].params| < 0x100
  }

  lemma {:induction false} CommandsPileUp(accept: Transport, e: Engine, k: nat, evs: seq<Event>)
    requires Fifo(e.q) && At(e, k) && e.q.credits == 0 && Commands(evs) && |e.q.pending| + |evs| <= DEPTH - 1
    ensures var r := Run(accept, e, evs);
            Fifo(r.q) && At(r, k) && r.q.credits == 0 && |r.q.pending| == |e.q.pending| + |evs|
  {
    if evs != [] {
      var front, ev := evs[..|evs| - 1], evs[|evs| - 1];
      CommandsPileUp(accept, e, k, front);
      SubmitIsFifo(accept, Run(accept, e, front).q, true, ev.opcode, ev.params);
    }
  }

  lemma StartSpendsCredit(accept: Transport, e: Engine)
    requires Fifo(e.q) && Willing(accept) && e.q.pending == []
    ensures var s := Start(accept, e, true);
            Fifo(s.q) && At(s, 0) && s.q.credits == 0 && s.q.pending == []
  {
    StartQueues(accept, e);
    var packet := Packet(RESET, []);
    WillingPump(accept, Grant(e.q, 1).(pending := [packet], taken := e.q.taken + [packet]));
    assert e.q.pending + [packet] == [packet];
  }

  /** It is reached: fifteen commands of other users before the reset is answered, with any credits. */
  lemma FullQueueStalls(accept: Transport, e: Engine, users: seq<Event>, ev: Event, more: seq<Event>)
    requires Fifo(e.q) && Willing(accept) && e.q.pending == [] && Commands(users) && |users| == DEPTH - 1
    requires Answered(ev) == Some(RESET) && NoneAnswers(1, more)
    ensures var full := Run(accept, Start(accept, e, true), users);
            var r := Run(accept, Step(accept, full, ev), more);
            At(r, 1) && !r.ready && full.q.taken <= r.q.taken && AllUsers(r.q.taken, |full.q.taken|, more)
  {
    StartSpendsCredit(accept, e);
    CommandsPileUp(accept, Start(accept, e, true), 0, users);
    RefusalStalls(accept, Run(accept, Start(accept, e, true), users), 0, ev, more);
  }
}
