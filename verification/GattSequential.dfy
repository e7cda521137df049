/**
 The sequential rule of the ATT bearer (section 3.3.2 of Vol 3 Part F of the Core
 Specification): one request outstanding at a time. A peer that answers only what
 it was asked keeps the client within it, except when encryption comes on while a
 subscription write is still unanswered; that case breaks it every time.
 */
module GattSequential {
  import opened Bytes
  import opened GattSession
  import opened GattSubscribe

  datatype Event =
    | Answer(pdu: Octets)        // the peer's answer to the outstanding request
    | Encrypt(on: bool)          // encryption change on the link
    | Unsolicited(pdu: Octets)   // notification, command, or a request of the peer's own

  /** The session and the number of requests not yet answered. */
  datatype Link = Link(s: Session, open: nat)

  const UP := Link(SendMtu(FRESH), 1)

  predicate IsResponse(op: byte) {
    op in {ERROR_RSP, MTU_RSP, INFO_RSP, TYPE_RSP, GROUP_RSP, WRITE_RSP}
  }

  predicate Answers(pdu: Octets, req: byte)
    requires pdu != []
  {
    pdu[0] == req + 1 || (pdu[0] == ERROR_RSP && |pdu| >= 5 && pdu[1] == req)
  }

  predicate Possible(l: Link, e: Event) {
    && -1 <= l.s.enableIdx
    && match e
       case Answer(pdu) => l.open >= 1 && Readable(pdu) && Answers(pdu, l.s.lastReq)
       case Encrypt(_) => true
       case Unsolicited(pdu) => Readable(pdu) && !IsResponse(pdu[0])
  }

  function After(l: Link, e: Event): Link {
    if !Possible(l, e) then l
    else
      var s := if e.Encrypt? then Encrypted(l.s, e.on) else Input(l.s, e.pdu);
      Link(s, Max0(l.open - (if e.Answer? then 1 else 0) + |s.sent| - |l.s.sent|))
  }

  function Max0(x: int): nat {
    if x < 0 then 0 else x
  }

  function Run(evs: seq<Event>): Link {
    if evs == [] then UP else After(Run(evs[..|evs| - 1]), evs[|evs| - 1])
  }

  predicate PossibleRun(evs: seq<Event>) {
    evs == [] || (PossibleRun(evs[..|evs| - 1]) && Possible(Run(evs[..|evs| - 1]), evs[|evs| - 1]))
  }

  /** Encryption comes on in the middle of an unanswered subscription write. */
  predicate Rushes(l: Link, e: Event) {
    e == Encrypt(true) && l.s.state == Enable && l.open >= 1
  }

  predicate Sequential(evs: seq<Event>) {
    Run(evs).open <= 1 && (evs == [] || Sequential(evs[..|evs| - 1]))
  }

  predicate NeverRushed(evs: seq<Event>) {
    evs == [] || (NeverRushed(evs[..|evs| - 1]) && !Rushes(Run(evs[..|evs| - 1]), evs[|evs| - 1]))
  }

  // ---------------------------------------------------------------------------
  // The invariant
  // ---------------------------------------------------------------------------

  function RequestOf(state: State): byte {
    match state
    case Mtu => MTU_REQ
    case Svc => GROUP_REQ
    case Char => TYPE_REQ
    case Desc => INFO_REQ
    case _ => WRITE_REQ
  }

  predicate Inv(l: Link) {
    && l.open <= 1 && -1 <= l.s.enableIdx
    && match l.s.state
       case Idle => false
       case Ready => l.open == 0 && (l.s.attached ==> EndsWith(l.s.sent, Expected(l.s)))
       case Failed => l.open == 0 && !l.s.attached
       case Enable =>
         && l.s.lastReq == WRITE_REQ && Begins(l.s) && Enabling(l.s) && !l.s.attached
         && |Left(l.s)| < |Expected(l.s)|
         && EndsWith(l.s.sent + Left(l.s), Expected(l.s))
       case _ => l.s.lastReq == RequestOf(l.s.state) && !l.s.attached
  }

  lemma StartKeepsInv(s: Session)
    requires -1 <= s.enableIdx && !s.attached
    ensures Inv(Link(StartEnable(s), if Begins(s) then 1 else 0))
    ensures |StartEnable(s).sent| == |s.sent| + if Begins(s) then 1 else 0
  {
    if Begins(s) {
      var first := StartIsFirst(s);
      var a := StartEnable(s);
      assert Expected(a) == Expected(s);
      assert a.sent + Left(a) == s.sent + Expected(s);
    }
  }

  lemma AckKeepsInv(s: Session)
    requires Inv(Link(s, 1)) && s.state == Enable
    ensures |s.sent| <= |OnWrite(s).sent| <= |s.sent| + 1
    ensures Inv(Link(OnWrite(s), |OnWrite(s).sent| - |s.sent|))
  {
    OneAck(s);
    var a := OnWrite(s);
    assert Expected(a) == Expected(s);
    if Left(s) == [] {
      assert s.sent + Left(s) == s.sent;
    } else {
      assert a.sent + Left(a) == s.sent + Left(s);
    }
  }

  lemma WriteAnswerKeepsInv(l: Link, pdu: Octets)
    requires Inv(l) && Possible(l, Answer(pdu)) && l.s.state == Enable
    ensures Inv(After(l, Answer(pdu)))
  {
    if pdu[0] == WRITE_RSP {
      assert Input(l.s, pdu) == OnWrite(l.s);
      AckKeepsInv(l.s);
    }
  }

  lemma InfoAnswerKeepsInv(l: Link, pdu: Octets)
    requires Inv(l) && Possible(l, Answer(pdu)) && l.s.state == Desc
    ensures Inv(After(l, Answer(pdu)))
  {
    var s := l.s;
    if pdu[0] == ERROR_RSP {
      StartKeepsInv(s.(reports := MapCccds(s.reports, s.cccds)));
    } else if |pdu| >= 2 {
      InfosKeepInv(s, ScanInfos(InfoScan(s.cccds, 0), Entries(pdu[2..], InfoSize(pdu[1]))));
    }
  }

  lemma InfosKeepInv(s: Session, a: InfoScan)
    requires -1 <= s.enableIdx && !s.attached
    ensures |s.sent| <= |AfterInfos(s, a).sent| <= |s.sent| + 1
    ensures Inv(Link(AfterInfos(s, a), |AfterInfos(s, a).sent| - |s.sent|))
  {
    StartKeepsInv(s.(cccds := a.cccds, reports := MapCccds(s.reports, a.cccds)));
  }

  lemma MtuAnswerKeepsInv(l: Link, pdu: Octets)
    requires Inv(l) && Possible(l, Answer(pdu)) && l.s.state == Mtu
    ensures Inv(After(l, Answer(pdu)))
  {
  }

  lemma ServiceAnswerKeepsInv(l: Link, pdu: Octets)
    requires Inv(l) && Possible(l, Answer(pdu)) && l.s.state == Svc
    ensures Inv(After(l, Answer(pdu)))
  {
  }

  lemma CharAnswerKeepsInv(l: Link, pdu: Octets)
    requires Inv(l) && Possible(l, Answer(pdu)) && l.s.state == Char
    ensures Inv(After(l, Answer(pdu)))
  {
  }

  lemma EventKeepsInv(l: Link, e: Event)
    requires Inv(l) && Possible(l, e) && !Rushes(l, e)
    ensures Inv(After(l, e))
  {
    match e
    case Answer(pdu) =>
      if l.s.state == Enable {
        WriteAnswerKeepsInv(l, pdu);
      } else if l.s.state == Desc {
        InfoAnswerKeepsInv(l, pdu);
      } else if l.s.state == Mtu {
        MtuAnswerKeepsInv(l, pdu);
      } else if l.s.state == Svc {
        ServiceAnswerKeepsInv(l, pdu);
      } else {
        CharAnswerKeepsInv(l, pdu);
      }
    case Encrypt(on) =>
      if on && (l.s.state == Enable || l.s.state == Failed) {
        StartKeepsInv(l.s.(pairingKicked := false));
      }
    case Unsolicited(pdu) =>
  }

  lemma {:induction false} InvHolds(evs: seq<Event>)
    requires PossibleRun(evs) && NeverRushed(evs)
    ensures Inv(Run(evs))
  {
    if evs != [] {
      InvHolds(evs[..|evs| - 1]);
      EventKeepsInv(Run(evs[..|evs| - 1]), evs[|evs| - 1]);
    }
  }

  lemma RushBreaksRule(l: Link, e: Event)
    requires Inv(l) && Rushes(l, e)
    ensures After(l, e).open == 2
  {
    StartKeepsInv(l.s.(pairingKicked := false));
  }

  /** Main theorem: the rule holds throughout a run if and only if encryption never rushes a write. */
  lemma {:induction false} SequentialIffNeverRushed(evs: seq<Event>)
    requires PossibleRun(evs)
    ensures Sequential(evs) <==> NeverRushed(evs)
  {
    if evs != [] {
      var front, e := evs[..|evs| - 1], evs[|evs| - 1];
      SequentialIffNeverRushed(front);
      if NeverRushed(front) {
        InvHolds(front);
        if Rushes(Run(front), e) {
          RushBreaksRule(Run(front), e);
        } else {
          EventKeepsInv(Run(front), e);
        }
      }
    }
  }

  /**
   Main theorem: in such a run, a session that is Ready and attached has ended its
   requests with exactly the expected writes, retries after pairing included.
   */
  lemma AttachedMeansSubscribed(evs: seq<Event>)
    requires PossibleRun(evs) && NeverRushed(evs) && Run(evs).s.state == Ready && Run(evs).s.attached
    ensures EndsWith(Run(evs).s.sent, Expected(Run(evs).s)) && Run(evs).open == 0
  {
    InvHolds(evs);
  }
}
