/** What happens to one character, in terms of the readings its call takes. */
module SerialCalls {
  import opened Serial

  /** The deadline is tested at every 64th poll: 2 ms on a calibrated clock, 20000 polls without one. */
  predicate Abandons(c: Call, n: nat) {
    n % 64 == 63 && (if c.calibrated then c.start + 2000 <= c.at(n) else 20000 <= n)
  }

  /** Nothing ends the wait before poll n. */
  ghost predicate StillWaiting(c: Call, n: nat) {
    forall k: nat | k < n :: !c.ready(k) && !Abandons(c, k)
  }

  ghost predicate ReadyAt(c: Call, n: nat) {
    StillWaiting(c, n) && c.ready(n)
  }

  ghost predicate Drains(c: Call) {
    exists n: nat :: ReadyAt(c, n)
  }

  /** There is no hardware, or the port's latch is set and has not run out. */
  predicate Silent(u: Uart, c: Call) {
    !u.present || (c.calibrated && c.port == u.latchPort && c.start < u.until)
  }

  lemma {:induction false} WaitEnds(c: Call, n: nat)
    requires GivesUp(c, c.limit) && n <= c.limit && StillWaiting(c, n)
    ensures var p := Wait(c, n).polls; StillWaiting(c, p) && if Wait(c, n).Emitted? then c.ready(p)
                                                             else !c.ready(p) && Abandons(c, p)
    decreases c.limit - n
  {
    if !c.ready(n) && !GivesUp(c, n) {
      WaitEnds(c, n + 1);
    }
  }

  lemma DrainsExactlyWhen(c: Call)
    requires GivesUp(c, c.limit)
    ensures Wait(c, 0).Emitted? <==> Drains(c)
    ensures Wait(c, 0) == Emitted(0) <==> c.ready(0)
  {
    WaitEnds(c, 0);
    var p := Wait(c, 0).polls;
    if Wait(c, 0).Emitted? {
      assert ReadyAt(c, p);
    } else if Drains(c) {
      var n: nat :| ReadyAt(c, n);
    }
  }

  /** One of three counters takes the character, by what the readings say. */
  lemma CallIsCounted(u: Uart, c: Call)
    requires Sane(c)
    ensures var v := Write(u, c);
            && v.suppressed == u.suppressed + (if Silent(u, c) then 1 else 0)
            && v.emitted == u.emitted + (if !Silent(u, c) && Drains(c) then 1 else 0)
            && v.drops == u.drops + (if !Silent(u, c) && !Drains(c) then 1 else 0)
            && v.present == u.present
  {
    DrainsExactlyWhen(c);
  }

  /**
   The latch is set for 500 ms by a calibrated failure, cleared by a success, and by an
   uncalibrated failure on its own port. The longest wait is kept over the calls that waited.
   */
  lemma CallMovesLatch(u: Uart, c: Call)
    requires Sane(c)
    ensures var v := Write(u, c);
            && (Silent(u, c) ==> v.until == u.until && v.latchPort == u.latchPort && v.maxUs == u.maxUs)
            && (!Silent(u, c) && Drains(c) ==> v.until == 0 && v.latchPort == u.latchPort)
            && (!Silent(u, c) && !Drains(c) && c.calibrated ==>
                  v.until == c.latched + 500000 && v.latchPort == c.port)
            && (!Silent(u, c) && !Drains(c) && !c.calibrated ==>
                  v.until == (if u.latchPort == c.port then 0 else u.until) && v.latchPort == u.latchPort)
            && (!Silent(u, c) ==>
                  v.maxUs == if c.calibrated && !c.ready(0) then Max(u.maxUs, c.measured - c.start) else u.maxUs)
  {
    DrainsExactlyWhen(c);
  }
}
