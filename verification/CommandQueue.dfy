/**
 The HCI command queue: a sixteen-slot ring of built packets, sent as the
 controller's credits allow (section 4.4 of Vol 4 Part E of the Core Specification).
 `accept(k)` is the transport's answer to the k-th packet it is ever offered.
 */
module CommandQueue {
  import opened Bytes

  const DEPTH := 16

  type Cmd = seq<byte>
  type Transport = nat -> bool

  function Packet(opcode: u16, params: seq<byte>): Cmd
    requires |params| < 0x100
  {
    Le16(opcode) + [|params|] + params
  }

  datatype Outcome = Accepted | NoDevice | Full

  /**
   The queue's meaning. `offered` counts hand-off attempts; `taken` and `sent` log the
   accepted commands and those the transport took; `granted` is the last credit report
   and `sentSince` the packets sent since it.
   */
  datatype Queue = Queue(
    credits: nat,
    pending: seq<Cmd>,
    offered: nat,
    taken: seq<Cmd>,
    sent: seq<Cmd>,
    granted: nat,
    sentSince: nat)

  const EMPTY := Queue(1, [], 0, [], [], 1, 0)

  function Pump(accept: Transport, q: Queue): Queue
    decreases |q.pending|
  {
    if q.credits == 0 || q.pending == [] then q
    else if !accept(q.offered) then q.(offered := q.offered + 1)
    else Pump(accept, q.(credits := q.credits - 1, pending := q.pending[1..], offered := q.offered + 1,
                         sent := q.sent + [q.pending[0]], sentSince := q.sentSince + 1))
  }

  function Submit(accept: Transport, q: Queue, present: bool, opcode: u16, params: seq<byte>): (Queue, Outcome)
    requires |params| < 0x100
  {
    if !present then (q, NoDevice)
    else if |q.pending| >= DEPTH - 1 then (q, Full)
    else
      var packet := Packet(opcode, params);
      (Pump(accept, q.(pending := q.pending + [packet], taken := q.taken + [packet])), Accepted)
  }

  /** A credit report replaces the credit count. */
  function Grant(q: Queue, n: nat): Queue {
    q.(credits := n, granted := n, sentSince := 0)
  }

  // ---------------------------------------------------------------------------
  // What every operation keeps
  // ---------------------------------------------------------------------------

  /** A FIFO with credits: nothing lost, reordered or duplicated, and never more sent than granted. */
  predicate Fifo(q: Queue) {
    && q.taken == q.sent + q.pending
    && |q.pending| <= DEPTH - 1
    && q.credits + q.sentSince == q.granted
  }

  /** Why a pump stopped. */
  predicate Settled(accept: Transport, q: Queue) {
    q.pending == [] || q.credits == 0 || (q.offered > 0 && !accept(q.offered - 1))
  }

  lemma {:induction false} PumpIsFifo(accept: Transport, q: Queue)
    requires Fifo(q)
    ensures Fifo(Pump(accept, q)) && Settled(accept, Pump(accept, q))
    ensures Pump(accept, q).taken == q.taken && Pump(accept, q).granted == q.granted
    ensures q.sent <= Pump(accept, q).sent
    decreases |q.pending|
  {
    if q.credits > 0 && q.pending != [] && accept(q.offered) {
      assert q.pending == [q.pending[0]] + q.pending[1..];
      PumpIsFifo(accept, q.(credits := q.credits - 1, pending := q.pending[1..], offered := q.offered + 1,
                            sent := q.sent + [q.pending[0]], sentSince := q.sentSince + 1));
    }
  }

  lemma SubmitIsFifo(accept: Transport, q: Queue, present: bool, opcode: u16, params: seq<byte>)
    requires Fifo(q) && |params| < 0x100
    ensures var (r, outcome) := Submit(accept, q, present, opcode, params);
            && Fifo(r) && (outcome.Accepted? ==> Settled(accept, r))
            && (outcome == Full <==> present && |q.pending| == 15)
            && (outcome == NoDevice <==> !present)
            && r.taken == q.taken + (if outcome.Accepted? then [Packet(opcode, params)] else [])
            && (!outcome.Accepted? ==> r == q)
  {
    if present && |q.pending| < DEPTH - 1 {
      var packet := Packet(opcode, params);
      assert q.sent + q.pending + [packet] == q.sent + (q.pending + [packet]);
      PumpIsFifo(accept, q.(pending := q.pending + [packet], taken := q.taken + [packet]));
    }
  }

  /** With a willing transport the pump sends the oldest commands, as many as there are credits. */
  lemma {:induction false} WillingPump(accept: Transport, q: Queue)
    requires forall k :: accept(k)
    ensures var n := Min(q.credits, |q.pending|);
            && Pump(accept, q).sent == q.sent + q.pending[..n]
            && Pump(accept, q).pending == q.pending[n..]
            && Pump(accept, q).credits == q.credits - n
    decreases |q.pending|
  {
    if q.credits > 0 && q.pending != [] {
      var n := Min(q.credits, |q.pending|);
      var q' := q.(credits := q.credits - 1, pending := q.pending[1..], offered := q.offered + 1,
                   sent := q.sent + [q.pending[0]], sentSince := q.sentSince + 1);
      WillingPump(accept, q');
      assert q.pending[..n] == [q.pending[0]] + q.pending[1..][..n - 1];
      assert q.pending[1..][n - 1..] == q.pending[n..];
    }
  }

  // ---------------------------------------------------------------------------
  // The ring
  // ---------------------------------------------------------------------------

  function RingContents<T>(ring: seq<T>, head: nat, tail: nat): seq<T>
    requires |ring| == DEPTH && head < DEPTH && tail < DEPTH
  {
    if head <= tail then ring[head..tail] else ring[head..] + ring[..tail]
  }

  lemma RingPush<T>(ring: seq<T>, head: nat, tail: nat, c: T)
    requires |ring| == DEPTH && head < DEPTH && tail < DEPTH && (tail + 1) % DEPTH != head
    ensures RingContents(ring[tail := c], head, (tail + 1) % DEPTH) == RingContents(ring, head, tail) + [c]
  {
  }

  lemma PopFront<T>(s: seq<T>, i: nat, rest: seq<T>)
    requires i < |s|
    ensures s[i..] + rest == [s[i]] + (s[i + 1..] + rest)
  {
    assert s[i..] == [s[i]] + s[i + 1..];
  }

  lemma RingPop<T>(ring: seq<T>, head: nat, tail: nat, next: nat)
    requires |ring| == DEPTH && head < DEPTH && tail < DEPTH && head != tail
    requires next == if head + 1 == DEPTH then 0 else head + 1
    ensures RingContents(ring, head, tail) == [ring[head]] + RingContents(ring, next, tail)
  {
    if head < tail {
      assert ring[head..tail] == [ring[head]] + ring[next..tail];
    } else {
      PopFront(ring, head, ring[..tail]);
      if next == 0 {
        assert ring[head + 1..] == [];
        assert ring[0..tail] == ring[..tail];
      }
    }
  }

  class Ring {
    const cmdq: array<Cmd>
    var head: nat
    var tail: nat
    var credits: nat
    /** The transport's side: packets offered and packets taken. */
    var offered: nat
    var sent: seq<Cmd>
    ghost var taken: seq<Cmd>
    ghost var granted: nat
    ghost var sentSince: nat

    ghost predicate Valid()
      reads this, cmdq
    {
      cmdq.Length == DEPTH && head < DEPTH && tail < DEPTH && Fifo(View())
    }

    ghost function View(): Queue
      requires cmdq.Length == DEPTH && head < DEPTH && tail < DEPTH
      reads this, cmdq
    {
      Queue(credits, RingContents(cmdq[..], head, tail), offered, taken, sent, granted, sentSince)
    }

    constructor ()
      ensures Valid() && View() == EMPTY && fresh(cmdq)
    {
      cmdq := new Cmd[DEPTH](_ => []);
      head, tail, credits, offered, sent := 0, 0, 1, 0, [];
      taken, granted, sentSince := [], 1, 0;
      new;
      assert RingContents(cmdq[..], 0, 0) == [];
      assert View() == EMPTY;
    }

    method Drain(accept: Transport)
      requires Valid()
      modifies this`head, this`credits, this`offered, this`sent, this`sentSince
      ensures Valid() && View() == Pump(accept, old(View())) && Settled(accept, View())
    {
      PumpIsFifo(accept, View());
      while credits > 0 && head != tail
        invariant cmdq.Length == DEPTH && head < DEPTH && tail < DEPTH
        invariant Pump(accept, View()) == Pump(accept, old(View()))
        decreases credits
      {
        var ok := OfferHead(accept);
        if !ok {
          return;
        }
      }
    }

    /** Offer the oldest packet; when the transport takes it, spend a credit and drop it from the ring. */
    method OfferHead(accept: Transport) returns (ok: bool)
      requires cmdq.Length == DEPTH && head < DEPTH && tail < DEPTH && head != tail && credits > 0
      modifies this`head, this`credits, this`offered, this`sent, this`sentSince
      ensures head < DEPTH && ok == accept(old(offered)) && credits == old(credits) - if ok then 1 else 0
      ensures var q := old(View());
              && q.pending != []
              && View() == if ok then q.(credits := q.credits - 1, pending := q.pending[1..], offered := q.offered + 1,
                                         sent := q.sent + [q.pending[0]], sentSince := q.sentSince + 1)
                           else q.(offered := q.offered + 1)
    {
      RingPop(cmdq[..], head, tail, (head + 1) % DEPTH);
      ok := accept(offered);
      offered := offered + 1;
      if ok {
        sent := sent + [cmdq[head]];
        sentSince := sentSince + 1;
        credits := credits - 1;
        head := (head + 1) % DEPTH;
      }
    }

    method SendCmd(accept: Transport, present: bool, opcode: u16, params: seq<byte>) returns (outcome: Outcome)
      requires Valid() && |params| < 0x100
      modifies this, cmdq
      ensures Valid() && (View(), outcome) == Submit(accept, old(View()), present, opcode, params)
    {
      if !present {
        return NoDevice;
      }
      var next := (tail + 1) % DEPTH;
      if next == head {
        return Full;
      }
      SubmitIsFifo(accept, View(), present, opcode, params);
      RingPush(cmdq[..], head, tail, Packet(opcode, params));
      ghost var packet := Packet(opcode, params);
      assert taken + [packet] == sent + (RingContents(cmdq[..], head, tail) + [packet]);
      cmdq[tail] := Packet(opcode, params);
      assert cmdq[..] == old(cmdq[..])[tail := packet];
      tail := next;
      taken := taken + [packet];
      Drain(accept);
      return Accepted;
    }

    method Report(n: nat)
      requires Valid()
      modifies this`credits, this`granted, this`sentSince
      ensures Valid() && View() == Grant(old(View()), n)
    {
      credits := n;
      granted, sentSince := n, 0;
    }
  }
}
