/**
 The UART transmit path: a bounded wait for each character, and a latch that stops
 asking a port that did not drain. A call's environment is given by the readings it
 takes: `ready(n)` is the n-th poll of the line status, `at(n)` the clock when the
 deadline is tested after poll n.
 */
module Serial {
  const BUDGET_US := 2000
  const BACKOFF_US := 500000
  const UNCALIBRATED_SPINS := 20000

  datatype Call = Call(
    port: nat,
    calibrated: bool,
    start: nat,              // clock on entry
    ready: nat -> bool,
    at: nat -> nat,
    measured: nat,           // clock when the wait is measured
    latched: nat,            // clock when the latch is set
    limit: nat)              // a poll by which the wait is over

  /** The wait is abandoned after poll n. */
  predicate GivesUp(c: Call, n: nat) {
    n % 64 == 63 && if c.calibrated then c.at(n) - c.start >= BUDGET_US else n >= UNCALIBRATED_SPINS
  }

  /** Clock readings do not go back, and the clock does get past the budget. */
  ghost predicate Sane(c: Call) {
    && GivesUp(c, c.limit)
    && (forall n :: c.start <= c.at(n) <= c.measured)
    && c.measured <= c.latched
  }

  datatype Fate = Emitted(polls: nat) | Dropped(polls: nat)

  /** The first poll that finds the port ready, unless the wait is abandoned before. */
  function Wait(c: Call, n: nat): Fate
    requires GivesUp(c, c.limit) && n <= c.limit
    decreases c.limit - n
  {
    if c.ready(n) then Emitted(n) else if GivesUp(c, n) then Dropped(n) else Wait(c, n + 1)
  }

  datatype Uart = Uart(
    present: bool, until: nat, latchPort: nat, emitted: nat, drops: nat, suppressed: nat, maxUs: nat)

  function Max(a: int, b: int): int {
    if a >= b then a else b
  }

  predicate Latched(u: Uart, c: Call) {
    u.until != 0 && u.latchPort == c.port && c.calibrated && c.start < u.until
  }

  function Write(u: Uart, c: Call): Uart
    requires Sane(c)
  {
    if !u.present || Latched(u, c) then u.(suppressed := u.suppressed + 1)
    else
      var v := if u.until != 0 && u.latchPort == c.port then u.(until := 0) else u;
      var waited := c.measured - c.start;
      match Wait(c, 0)
      case Emitted(n) =>
        v.(emitted := v.emitted + 1, until := 0,
           maxUs := if n != 0 && c.calibrated then Max(v.maxUs, waited) else v.maxUs)
      case Dropped(_) =>
        if c.calibrated then
          v.(drops := v.drops + 1, maxUs := Max(v.maxUs, waited), latchPort := c.port, until := c.latched + BACKOFF_US)
        else v.(drops := v.drops + 1)
  }

  class SerialPort {
    var present: bool
    var until: nat
    var latchPort: nat
    var emitted: nat
    var drops: nat
    var suppressed: nat
    var maxUs: nat

    ghost function View(): Uart
      reads this
    {
      Uart(present, until, latchPort, emitted, drops, suppressed, maxUs)
    }

    constructor (present: bool)
      ensures View() == Uart(present, 0, 0, 0, 0, 0, 0)
    {
      this.present := present;
      until, latchPort, emitted, drops, suppressed, maxUs := 0, 0, 0, 0, 0, 0;
    }

    method WriteLocked(c: Call)
      requires Sane(c)
      modifies this
      ensures View() == Write(old(View()), c)
    {
      if !present {
        suppressed := suppressed + 1;
        return;
      }
      if until != 0 && latchPort == c.port {
        if c.calibrated && c.start < until {
          suppressed := suppressed + 1;
          return;
        }
        until := 0;
      }
      var spin := 0;
      while true
        invariant spin <= c.limit && Wait(c, spin) == Wait(c, 0)
        decreases c.limit - spin
      {
        if c.ready(spin) {
          emitted := emitted + 1;
          until := 0;
          if spin != 0 && c.calibrated {
            maxUs := Max(maxUs, c.measured - c.start);
          }
          return;
        }
        if GivesUp(c, spin) {
          break;
        }
        spin := spin + 1;
      }
      drops := drops + 1;
      if c.calibrated {
        maxUs := Max(maxUs, c.measured - c.start);
        latchPort := c.port;
        until := c.latched + BACKOFF_US;
      }
    }
  }

  // ---------------------------------------------------------------------------
  // Whole runs
  // ---------------------------------------------------------------------------

  ghost predicate AllSane(calls: seq<Call>) {
    forall i | 0 <= i < |calls| :: Sane(calls[i])
  }

  function Run(u: Uart, calls: seq<Call>): Uart
    requires AllSane(calls)
  {
    if calls == [] then u else Write(Run(u, calls[..|calls| - 1]), calls[|calls| - 1])
  }

  /** Every character is accounted for once, on any mix of ports and before calibration too. */
  lemma {:induction false} CharactersAreAccountedFor(u: Uart, calls: seq<Call>)
    requires AllSane(calls)
    ensures var v := Run(u, calls);
            v.emitted + v.drops + v.suppressed == u.emitted + u.drops + u.suppressed + |calls|
  {
    if calls != [] {
      CharactersAreAccountedFor(u, calls[..|calls| - 1]);
    }
  }

  // ---------------------------------------------------------------------------
  // The latch and the other ports
  // ---------------------------------------------------------------------------

  /** The call reaches the hardware. */
  predicate Probes(u: Uart, c: Call) {
    u.present && !Latched(u, c)
  }

  /** Once it reaches the hardware on another port, the call clears the latch or takes it over. */
  predicate Disturbing(c: Call)
    requires Sane(c)
  {
    Wait(c, 0).Emitted? || c.calibrated
  }

  ghost predicate OnOtherPorts(calls: seq<Call>, port: nat) {
    AllSane(calls) && forall i | 0 <= i < |calls| :: calls[i].port != port
  }

  predicate SameLatch(u: Uart, v: Uart) {
    v.until == u.until && v.latchPort == u.latchPort && v.present == u.present
  }

  /** The latch is off, or on a port other than this one. */
  predicate Unlatched(v: Uart, port: nat) {
    v.until == 0 || v.latchPort != port
  }

  lemma {:induction false} LatchAfter(u: Uart, calls: seq<Call>, port: nat)
    requires u.until != 0 && u.latchPort == port && OnOtherPorts(calls, port)
    ensures Run(u, calls).present == u.present
    ensures if !u.present || forall i | 0 <= i < |calls| :: !Disturbing(calls[i])
            then SameLatch(u, Run(u, calls)) else Unlatched(Run(u, calls), port)
  {
    if calls != [] {
      LatchAfter(u, calls[..|calls| - 1], port);
    }
  }

  /**
   Main theorem on one latch: a latched port is still latched after any run of calls on
   other ports if and only if there is no hardware, or each of those calls was dropped
   before the clock was calibrated.
   */
  lemma LatchSurvivesIff(u: Uart, calls: seq<Call>, port: nat)
    requires u.until != 0 && u.latchPort == port && OnOtherPorts(calls, port)
    ensures SameLatch(u, Run(u, calls)) <==> !u.present || forall i | 0 <= i < |calls| :: !Disturbing(calls[i])
  {
    LatchAfter(u, calls, port);
  }

  /** So inside the backoff a port is probed again exactly when some call on another port intervened. */
  lemma ProbedAgainIff(u: Uart, calls: seq<Call>, again: Call)
    requires u.until != 0 && u.latchPort == again.port && OnOtherPorts(calls, again.port)
    requires again.calibrated && again.start < u.until
    ensures Probes(Run(u, calls), again) <==> u.present && exists i | 0 <= i < |calls| :: Disturbing(calls[i])
  {
    LatchAfter(u, calls, again.port);
  }

  /** One call on another port, successful or not, is enough: a dead port is then probed inside its backoff. */
  lemma SecondPortDefeatsLatch(u: Uart, other: Call, again: Call)
    requires u.present && Sane(other) && Sane(again) && other.calibrated && again.calibrated
    requires u.until > again.start && u.latchPort == again.port != other.port
    requires forall n :: !again.ready(n)
    ensures Write(Write(u, other), again).drops == Write(u, other).drops + 1
  {
    assert [other][..0] == [];
    assert Run(u, [other]) == Write(u, other);
    assert Disturbing([other][0]);
    ProbedAgainIff(u, [other], again);
    NeverReady(again, 0);
  }

  lemma {:induction false} NeverReady(c: Call, n: nat)
    requires GivesUp(c, c.limit) && n <= c.limit && forall k :: !c.ready(k)
    ensures Wait(c, n).Dropped?
    decreases c.limit - n
  {
    if !GivesUp(c, n) {
      NeverReady(c, n + 1);
    }
  }

  // ---------------------------------------------------------------------------
  // How often a dead port is probed
  // ---------------------------------------------------------------------------

  /** A failed probe: when its call came in, and when it set the latch. */
  datatype Probe = Probe(start: nat, latched: nat)

  predicate Fails(u: Uart, c: Call)
    requires Sane(c)
  {
    Write(u, c).drops > u.drops
  }

  /** The failed probes of a port. */
  function Failed(u: Uart, calls: seq<Call>, port: nat): seq<Probe>
    requires AllSane(calls)
  {
    if calls == [] then []
    else
      var front, c := calls[..|calls| - 1], calls[|calls| - 1];
      Failed(u, front, port) + if c.port == port && Fails(Run(u, front), c) then [Probe(c.start, c.latched)] else []
  }

  /** Calls on any ports, one after the other; those on this port with a calibrated clock. */
  ghost predicate Timed(calls: seq<Call>, port: nat) {
    && AllSane(calls)
    && (forall i | 0 <= i < |calls| && calls[i].port == port :: calls[i].calibrated)
    && (forall i, j | 0 <= i < j < |calls| :: calls[i].latched <= calls[j].start)
  }

  predicate InBackoff(probes: seq<Probe>, now: nat) {
    probes != [] && now < probes[|probes| - 1].latched + BACKOFF_US
  }

  /** Since the port's last failed probe, a call on another port has disturbed the latch. */
  predicate Disturbed(u: Uart, calls: seq<Call>, port: nat)
    requires AllSane(calls)
  {
    calls != [] &&
    var front, c := calls[..|calls| - 1], calls[|calls| - 1];
    if c.port == port then Disturbed(u, front, port) && !Fails(Run(u, front), c)
    else Disturbed(u, front, port) || (u.present && Disturbing(c))
  }

  /** No call on the port comes inside its backoff after such a disturbance. */
  predicate Guarded(u: Uart, calls: seq<Call>, port: nat)
    requires AllSane(calls)
  {
    calls == [] ||
    (var front, c := calls[..|calls| - 1], calls[|calls| - 1];
     && Guarded(u, front, port)
     && !(c.port == port && InBackoff(Failed(u, front, port), c.start) && Disturbed(u, front, port)))
  }

  /** Every failed probe comes a full backoff after the one before. */
  predicate Rested(probes: seq<Probe>) {
    forall i | 0 < i < |probes| :: probes[i].start >= probes[i - 1].latched + BACKOFF_US
  }

  /** Inside the backoff the latch is on the port, unless it has been disturbed; then it is not. */
  predicate LatchInv(v: Uart, probes: seq<Probe>, disturbed: bool, port: nat, now: nat) {
    && (probes != [] ==> probes[|probes| - 1].latched <= now)
    && (disturbed ==> v.present)
    && (InBackoff(probes, now) && v.present ==>
          if disturbed then Unlatched(v, port)
          else v.until == probes[|probes| - 1].latched + BACKOFF_US && v.latchPort == port)
  }

  /** A call on the port itself. */
  lemma OwnCall(v: Uart, c: Call, probes: seq<Probe>, disturbed: bool, now: nat)
    requires Sane(c) && c.calibrated && now <= c.start && LatchInv(v, probes, disturbed, c.port, now)
    ensures var w := Write(v, c);
            LatchInv(w, probes + if Fails(v, c) then [Probe(c.start, c.latched)] else [],
                     disturbed && !Fails(v, c), c.port, c.latched)
    ensures InBackoff(probes, c.start) && Fails(v, c) ==> disturbed
  {
    assert c.start <= c.at(0) <= c.measured;
    assert probes + [] == probes;
  }

  /** A call on another port. */
  lemma OtherCall(v: Uart, c: Call, probes: seq<Probe>, disturbed: bool, port: nat, now: nat)
    requires Sane(c) && c.port != port && now <= c.start && LatchInv(v, probes, disturbed, port, now)
    ensures LatchInv(Write(v, c), probes, disturbed || (v.present && Disturbing(c)), port, c.latched)
  {
    assert c.start <= c.at(0) <= c.measured;
  }

  lemma {:induction false} PresentStays(u: Uart, calls: seq<Call>)
    requires AllSane(calls)
    ensures Run(u, calls).present == u.present
  {
    if calls != [] {
      PresentStays(u, calls[..|calls| - 1]);
    }
  }

  function LastLatched(calls: seq<Call>): nat {
    if calls == [] then 0 else calls[|calls| - 1].latched
  }

  lemma TimedFront(calls: seq<Call>, port: nat)
    requires Timed(calls, port) && calls != []
    ensures Timed(calls[..|calls| - 1], port)
    ensures LastLatched(calls[..|calls| - 1]) <= calls[|calls| - 1].start
  {
  }

  /** In every run the latch is where the failed probes and disturbances since say. */
  lemma {:induction false} LatchHolds(u: Uart, calls: seq<Call>, port: nat)
    requires Timed(calls, port)
    ensures LatchInv(Run(u, calls), Failed(u, calls, port), Disturbed(u, calls, port), port, LastLatched(calls))
  {
    if calls != [] {
      var front, c := calls[..|calls| - 1], calls[|calls| - 1];
      TimedFront(calls, port);
      LatchHolds(u, front, port);
      PresentStays(u, front);
      var v, probes, d, now := Run(u, front), Failed(u, front, port), Disturbed(u, front, port), LastLatched(front);
      if c.port == port {
        OwnCall(v, c, probes, d, now);
      } else {
        assert probes + [] == probes;
        OtherCall(v, c, probes, d, port, now);
      }
    }
  }

  lemma RestedSnoc(probes: seq<Probe>, p: Probe)
    ensures Rested(probes + [p]) <==> Rested(probes) && !InBackoff(probes, p.start)
  {
    var all := probes + [p];
    assert forall i | 0 <= i < |probes| :: all[i] == probes[i];
    assert all[|probes|] == p;
  }

  /** A guarded run keeps every failed probe a full backoff after the last one. */
  lemma {:induction false} GuardedIsRested(u: Uart, calls: seq<Call>, port: nat)
    requires Timed(calls, port) && Guarded(u, calls, port)
    ensures Rested(Failed(u, calls, port))
  {
    if calls != [] {
      var front, c := calls[..|calls| - 1], calls[|calls| - 1];
      var probes := Failed(u, front, port);
      TimedFront(calls, port);
      GuardedIsRested(u, front, port);
      LatchHolds(u, front, port);
      if c.port == port {
        OwnCall(Run(u, front), c, probes, Disturbed(u, front, port), LastLatched(front));
        RestedSnoc(probes, Probe(c.start, c.latched));
      }
      assert probes + [] == probes;
    }
  }

  /** A port whose transmitter is never found empty. */
  ghost predicate NeverDrains(calls: seq<Call>, port: nat) {
    forall i | 0 <= i < |calls| && calls[i].port == port :: forall n :: !calls[i].ready(n)
  }

  lemma UnlatchedFails(v: Uart, c: Call)
    requires Sane(c) && v.present && Unlatched(v, c.port) && forall n :: !c.ready(n)
    ensures Fails(v, c)
  {
    NeverReady(c, 0);
  }

  /**
   Main theorem, for every run over any ports: a port that never drains is probed at most
   once in each backoff if and only if no call on it comes inside its backoff after a call
   on another port has disturbed the latch.
   */
  lemma {:induction false} RestedExactlyWhen(u: Uart, calls: seq<Call>, port: nat)
    requires Timed(calls, port) && NeverDrains(calls, port)
    ensures Rested(Failed(u, calls, port)) <==> Guarded(u, calls, port)
  {
    if Guarded(u, calls, port) {
      GuardedIsRested(u, calls, port);
    } else {
      var front, c := calls[..|calls| - 1], calls[|calls| - 1];
      var v, probes := Run(u, front), Failed(u, front, port);
      TimedFront(calls, port);
      RestedExactlyWhen(u, front, port);
      LatchHolds(u, front, port);
      if Guarded(u, front, port) {
        StillInBackoff(v, c, probes, front, port);
        UnlatchedFails(v, c);
      }
      assert probes + [] == probes;
      RestedSnoc(probes, Probe(c.start, c.latched));
    }
  }

  lemma StillInBackoff(v: Uart, c: Call, probes: seq<Probe>, front: seq<Call>, port: nat)
    requires InBackoff(probes, c.start) && LastLatched(front) <= c.start
    requires LatchInv(v, probes, true, port, LastLatched(front))
    ensures v.present && Unlatched(v, port)
  {
  }

  lemma {:induction false} WaitedFullBudget(c: Call, n: nat)
    requires Sane(c) && c.calibrated && n <= c.limit && Wait(c, n).Dropped?
    ensures c.measured - c.start >= BUDGET_US
    decreases c.limit - n
  {
    if GivesUp(c, n) {
      assert c.at(n) <= c.measured;
    } else {
      WaitedFullBudget(c, n + 1);
    }
  }

  lemma {:induction false} ProbesWaited(u: Uart, calls: seq<Call>, port: nat)
    requires Timed(calls, port)
    ensures forall i | 0 <= i < |Failed(u, calls, port)| ::
              Failed(u, calls, port)[i].latched >= Failed(u, calls, port)[i].start + BUDGET_US
  {
    if calls != [] {
      var front, c := calls[..|calls| - 1], calls[|calls| - 1];
      TimedFront(calls, port);
      ProbesWaited(u, front, port);
      if c.port == port && Fails(Run(u, front), c) {
        WaitedFullBudget(c, 0);
      }
    }
  }

  /** In particular a run on one port is guarded. */
  lemma {:induction false} OnePortIsGuarded(u: Uart, calls: seq<Call>, port: nat)
    requires AllSane(calls) && forall i | 0 <= i < |calls| :: calls[i].port == port
    ensures Guarded(u, calls, port) && !Disturbed(u, calls, port)
  {
    if calls != [] {
      OnePortIsGuarded(u, calls[..|calls| - 1], port);
    }
  }

  const SPACING := BACKOFF_US + BUDGET_US

  lemma {:induction false} SpacedApart(probes: seq<Probe>, i: nat, j: nat)
    requires Rested(probes) && i <= j < |probes|
    requires forall k | 0 <= k < |probes| :: probes[k].latched >= probes[k].start + BUDGET_US
    ensures probes[j].latched - probes[i].latched >= (j - i) * SPACING
    decreases j
  {
    if i < j {
      SpacedApart(probes, i, j - 1);
    }
  }

  lemma FewInWindow(probes: seq<Probe>, i: nat, j: nat, window: nat)
    requires Rested(probes) && i <= j < |probes| && probes[j].latched - probes[i].latched <= window
    requires forall k | 0 <= k < |probes| :: probes[k].latched >= probes[k].start + BUDGET_US
    ensures probes[j].latched - probes[i].latched >= (j - i) * SPACING && j - i + 1 <= window / SPACING + 1
  {
    SpacedApart(probes, i, j);
  }

  /**
   Main theorem: in a guarded run over any ports, any two failed probes of the port set the
   latch at least 502 ms apart, however many characters are written, so a window of W
   microseconds holds at most W / 502000 + 1 of them.
   */
  lemma FailedProbesAreRare(u: Uart, calls: seq<Call>, port: nat, i: nat, j: nat, window: nat)
    requires Timed(calls, port) && Guarded(u, calls, port) && i <= j < |Failed(u, calls, port)|
    requires Failed(u, calls, port)[j].latched - Failed(u, calls, port)[i].latched <= window
    ensures Failed(u, calls, port)[j].latched - Failed(u, calls, port)[i].latched >= (j - i) * SPACING
    ensures j - i + 1 <= window / SPACING + 1
  {
    GuardedIsRested(u, calls, port);
    ProbesWaited(u, calls, port);
    FewInWindow(Failed(u, calls, port), i, j, window);
  }
}
