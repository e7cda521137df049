/**
 What the peer's errors do, read off the bytes of the answers and the history of the
 link: which start pairing, which end the session, and what re-arms pairing.
 */
module GattErrors {
  import opened Bytes
  import opened GattSession
  import opened GattSequential

  // ---------------------------------------------------------------------------
  // Events, by their bytes
  // ---------------------------------------------------------------------------

  /** An Error Response of at least five bytes; byte 4 is its code. */
  predicate IsError(e: Event) {
    e.Answer? && |e.pdu| >= 5 && e.pdu[0] == 0x01
  }

  /** Insufficient authentication or insufficient encryption. */
  predicate AsksForPairing(e: Event) {
    IsError(e) && e.pdu[4] in {0x05, 0x0F}
  }

  /** Any other code but "attribute not found". */
  predicate IsFatal(e: Event) {
    IsError(e) && e.pdu[4] !in {0x05, 0x0A, 0x0F}
  }

  predicate IsEnd(e: Event) {
    IsError(e) && e.pdu[4] == 0x0A
  }

  /** Encryption comes on where the client acts on it: while enabling, or after a failure. */
  predicate TakesEffect(l: Link, e: Event) {
    e == Encrypt(true) && l.s.state in {Enable, Failed}
  }

  // ---------------------------------------------------------------------------
  // A page of services, by its bytes
  // ---------------------------------------------------------------------------

  predicate IsServicePage(e: Event) {
    e.Answer? && |e.pdu| >= 2 && e.pdu[0] == 0x11 && e.pdu[1] >= 4
  }

  /** How many whole entries of this size fit into so many bytes. */
  function Whole(len: int, size: nat): nat
    requires size > 0
    decreases len
  {
    if len < size then 0 else 1 + Whole(len - size, size)
  }

  lemma {:induction false} WholeFits(len: int, size: nat, i: nat)
    requires size > 0 && i < Whole(len, size)
    ensures i * size + size <= len
    decreases i
  {
    if i > 0 {
      WholeFits(len - size, size, i - 1);
      assert i * size == (i - 1) * size + size;
    }
  }

  /** Entry i of a list of entries. */
  function Piece(body: Octets, size: nat, i: nat): (e: Octets)
    requires size > 0 && i < Whole(|body|, size)
    ensures |e| == size
  {
    WholeFits(|body|, size, i);
    body[i * size..i * size + size]
  }

  /** The entries of a list response: byte 1 is their size, and they follow it. */
  function Page(p: Octets): (es: seq<Octets>)
    requires |p| >= 2 && p[1] >= 4
    ensures forall i | 0 <= i < |es| :: |es[i]| == p[1]
  {
    seq(Whole(|p| - 2, p[1]), i requires 0 <= i < Whole(|p| - 2, p[1]) => Piece(p[2..], p[1], i))
  }

  /** An entry with a 16-bit UUID, and it is the HID service. */
  predicate NamesHid(e: Octets)
    requires |e| >= 4
  {
    |e| == 6 && e[4] == 0x12 && e[5] == 0x18
  }

  /** Entry i is the last HID entry, and its handle is not zero. */
  predicate LastHid(es: seq<Octets>, i: nat)
    requires i < |es| && forall k | 0 <= k < |es| :: |es[k]| >= 4
  {
    NamesHid(es[i]) && Rd16(es[i], 0) != 0 && forall j | i < j < |es| :: !NamesHid(es[j])
  }

  /** The last HID entry has a real handle, or there is none and the service was known before. */
  predicate Leaves(known: bool, es: seq<Octets>)
    requires forall i | 0 <= i < |es| :: |es[i]| >= 4
  {
    || (exists i | 0 <= i < |es| :: LastHid(es, i))
    || (known && forall j | 0 <= j < |es| :: !NamesHid(es[j]))
  }

  /** The last service of a page reaches the last handle there is. */
  predicate ReachesEnd(es: seq<Octets>)
    requires forall i | 0 <= i < |es| :: |es[i]| >= 4
  {
    es != [] && Rd16(es[|es| - 1], 2) == 0xFFFF
  }

  lemma PieceShifts(body: Octets, size: nat, k: nat)
    requires 0 < size <= |body| && k < Whole(|body| - size, size)
    ensures Piece(body[size..], size, k) == Piece(body, size, k + 1)
  {
    WholeFits(|body| - size, size, k);
    OneFurther(k, size);
    SliceShifts(body, size, k * size, size);
  }

  lemma OneFurther(k: int, size: int)
    ensures (k + 1) * size == k * size + size
  {
  }

  lemma SliceShifts(body: Octets, from: nat, lo: nat, n: nat)
    requires from + lo + n <= |body|
    ensures body[from..][lo..lo + n] == body[lo + from..lo + from + n]
  {
  }

  lemma {:induction false} EntriesByIndex(body: Octets, size: nat)
    requires size > 0
    ensures |Entries(body, size)| == Whole(|body|, size)
    ensures forall k | 0 <= k < Whole(|body|, size) :: Entries(body, size)[k] == Piece(body, size, k)
    decreases |body|
  {
    if |body| >= size {
      EntriesByIndex(body[size..], size);
      var rest, all := Entries(body[size..], size), Entries(body, size);
      forall k | 0 <= k < |all|
        ensures all[k] == Piece(body, size, k)
      {
        if k == 0 {
          assert 0 * size == 0;
        } else {
          PieceShifts(body, size, k - 1);
        }
      }
    }
  }

  lemma PageEntries(p: Octets)
    requires |p| >= 2 && p[1] >= 4
    ensures Entries(p[2..], p[1]) == Page(p)
  {
    EntriesByIndex(p[2..], p[1]);
  }

  /** What scanning a list of entries leaves, entry by entry. */
  lemma {:induction false} ScanLeaves(a: ServiceScan, es: seq<Octets>)
    requires forall i | 0 <= i < |es| :: |es[i]| >= 4
    ensures es != [] ==> ScanServices(a, es).last == Rd16(es[|es| - 1], 2)
    ensures es == [] ==> ScanServices(a, es) == a
    ensures ScanServices(a, es).hidStart != 0 <==> Leaves(a.hidStart != 0, es)
    decreases |es|
  {
    if es != [] {
      var e, rest := es[0], es[1..];
      var b := TakeService(a, Rd16(e, 0), Rd16(e, 2), if |e| == 6 then Some(Rd16(e, 4)) else None);
      ScanLeaves(b, rest);
      HidByBytes(e);
      if rest == [] {
        assert ScanServices(a, es) == b;
      }
      LeavesCons(a.hidStart != 0, es);
    }
  }

  lemma HidByBytes(e: Octets)
    requires |e| >= 4
    ensures NamesHid(e) <==> |e| == 6 && Rd16(e, 4) == HID_SERVICE
  {
  }

  lemma LeavesCons(known: bool, es: seq<Octets>)
    requires es != [] && forall i | 0 <= i < |es| :: |es[i]| >= 4
    ensures Leaves(known, es) <==> Leaves(if NamesHid(es[0]) then Rd16(es[0], 0) != 0 else known, es[1..])
  {
    var rest := es[1..];
    assert forall j | 0 < j < |es| :: es[j] == rest[j - 1];
    if i :| 0 <= i < |es| && LastHid(es, i) {
      if i > 0 {
        assert LastHid(rest, i - 1);
      }
    }
    if i :| 0 <= i < |rest| && LastHid(rest, i) {
      assert LastHid(es, i + 1);
    }
    if NamesHid(es[0]) && Rd16(es[0], 0) != 0 && forall j | 0 <= j < |rest| :: !NamesHid(rest[j]) {
      assert LastHid(es, 0);
    }
  }

  // ---------------------------------------------------------------------------
  // One event
  // ---------------------------------------------------------------------------

  /** A page that ends the search for services without having found the HID one. */
  predicate IsLastPageWithoutHid(l: Link, e: Event) {
    && IsServicePage(e)
    && ReachesEnd(Page(e.pdu)) && !Leaves(l.s.hidStart != 0, Page(e.pdu))
  }

  /** The three ways into Failed. */
  predicate EndsSession(l: Link, e: Event) {
    || IsFatal(e)
    || (IsEnd(e) && l.s.state == Svc && l.s.hidStart == 0)
    || IsLastPageWithoutHid(l, e)
  }

  lemma PairingRequest(l: Link, e: Event)
    requires Possible(l, e) && AsksForPairing(e)
    ensures After(l, e).s == l.s.(pairingKicked := true, pairings := l.s.pairings + if l.s.pairingKicked then 0 else 1)
  {
  }

  lemma EncryptionEvent(l: Link, e: Event)
    requires Possible(l, e) && e.Encrypt?
    ensures var s := After(l, e).s;
            if TakesEffect(l, e) then s.state in {Enable, Ready} && !s.pairingKicked && s.pairings == l.s.pairings
            else s == l.s
  {
  }

  lemma ServicePage(s: Session, p: Octets)
    requires |p| >= 2 && p[1] >= 4
    ensures OnGroup(s, p).state == Failed <==> ReachesEnd(Page(p)) && !Leaves(s.hidStart != 0, Page(p))
    ensures OnGroup(s, p).pairingKicked == s.pairingKicked && OnGroup(s, p).pairings == s.pairings
  {
    PageEntries(p);
    ScanLeaves(ServiceScan(s.hidStart, s.hidEnd, 0), Page(p));
  }

  lemma OtherAnswer(s: Session, p: Octets)
    requires Readable(p) && -1 <= s.enableIdx && p[0] != 0x01 && !(p[0] == 0x11 && |p| >= 2)
    ensures Input(s, p).pairingKicked == s.pairingKicked && Input(s, p).pairings == s.pairings
    ensures Input(s, p).state == Failed ==> s.state == Failed
  {
  }

  lemma OtherError(s: Session, p: Octets)
    requires |p| >= 5 && p[4] !in {0x05, 0x0F}
    ensures OnError(s, p).pairingKicked == s.pairingKicked && OnError(s, p).pairings == s.pairings
    ensures s.state != Failed ==>
              (OnError(s, p).state == Failed <==> p[4] != 0x0A || (s.state == Svc && s.hidStart == 0))
  {
  }

  /** Everything but a request for pairing and an effective encryption leaves pairing alone. */
  lemma OtherEvent(l: Link, e: Event)
    requires Possible(l, e) && !AsksForPairing(e) && !TakesEffect(l, e)
    ensures After(l, e).s.pairingKicked == l.s.pairingKicked && After(l, e).s.pairings == l.s.pairings
    ensures l.s.state != Failed ==> (After(l, e).s.state == Failed <==> EndsSession(l, e))
  {
    match e
    case Encrypt(_) => EncryptionEvent(l, e);
    case Answer(pdu) => OneAnswer(l, pdu);
    case Unsolicited(pdu) => OtherAnswer(l.s, pdu);
  }

  lemma OneAnswer(l: Link, pdu: Octets)
    requires Possible(l, Answer(pdu)) && !AsksForPairing(Answer(pdu))
    ensures Input(l.s, pdu).pairingKicked == l.s.pairingKicked && Input(l.s, pdu).pairings == l.s.pairings
    ensures l.s.state != Failed ==> (Input(l.s, pdu).state == Failed <==> EndsSession(l, Answer(pdu)))
  {
    if pdu[0] == 0x01 {
      assert Input(l.s, pdu) == OnError(l.s, pdu);
      if |pdu| >= 5 {
        OtherError(l.s, pdu);
      }
    } else if pdu[0] == 0x11 && |pdu| >= 2 {
      assert Input(l.s, pdu) == OnGroup(l.s, pdu);
      ServicePage(l.s, pdu);
    } else {
      OtherAnswer(l.s, pdu);
    }
  }

  // ---------------------------------------------------------------------------
  // Whole runs
  // ---------------------------------------------------------------------------

  /** A request for pairing has come since encryption last took effect. */
  predicate PairingAsked(evs: seq<Event>) {
    evs != [] &&
    var front, e := evs[..|evs| - 1], evs[|evs| - 1];
    AsksForPairing(e) || (PairingAsked(front) && !TakesEffect(Run(front), e))
  }

  /** How many requests for pairing came when none had since encryption last took effect. */
  function PairingStarts(evs: seq<Event>): nat {
    if evs == [] then 0
    else
      var front, e := evs[..|evs| - 1], evs[|evs| - 1];
      PairingStarts(front) + if AsksForPairing(e) && !PairingAsked(front) then 1 else 0
  }

  /**
   Main theorem: in every run pairing has been started exactly once for each error of code
   5 or 15 that arrived when none had since encryption last took effect.
   */
  lemma {:induction false} PairingStartsOnce(evs: seq<Event>)
    requires PossibleRun(evs)
    ensures Run(evs).s.pairings == PairingStarts(evs) && (Run(evs).s.pairingKicked <==> PairingAsked(evs))
  {
    if evs != [] {
      var front, e := evs[..|evs| - 1], evs[|evs| - 1];
      var l := Run(front);
      PairingStartsOnce(front);
      if AsksForPairing(e) {
        PairingRequest(l, e);
      } else if e.Encrypt? {
        EncryptionEvent(l, e);
      } else {
        OtherEvent(l, e);
      }
    }
  }

  /** Such an error leaves the state and everything sent alone, so the session resumes where it was. */
  lemma PairingErrorWaits(front: seq<Event>, e: Event)
    requires PossibleRun(front + [e]) && AsksForPairing(e)
    ensures var s, t := Run(front).s, Run(front + [e]).s;
            && t.state == s.state && t.sent == s.sent && t.reports == s.reports && t.enableIdx == s.enableIdx
            && t.hidStart == s.hidStart && t.hidEnd == s.hidEnd && t.attached == s.attached
  {
    assert (front + [e])[..|front|] == front;
    PairingRequest(Run(front), e);
  }

  /**
   Main theorem: a session enters Failed exactly on an error of another code, on the end of
   services without HID, or on the last page of services without HID.
   */
  lemma FailsExactlyWhen(front: seq<Event>, e: Event)
    requires PossibleRun(front + [e]) && Run(front).s.state != Failed
    ensures Run(front + [e]).s.state == Failed <==> EndsSession(Run(front), e)
  {
    assert (front + [e])[..|front|] == front;
    var l := Run(front);
    if AsksForPairing(e) {
      PairingRequest(l, e);
    } else if e.Encrypt? {
      EncryptionEvent(l, e);
    } else {
      OtherEvent(l, e);
    }
  }

  /** Encryption that takes effect leaves Failed and re-arms pairing; elsewhere it does nothing. */
  lemma EncryptionRearms(front: seq<Event>, on: bool)
    requires PossibleRun(front + [Encrypt(on)])
    ensures var s, t := Run(front).s, Run(front + [Encrypt(on)]).s;
            if on && s.state in {Enable, Failed}
            then t.state in {Enable, Ready} && !PairingAsked(front + [Encrypt(on)]) && t.pairings == s.pairings
            else t == s
  {
    assert (front + [Encrypt(on)])[..|front|] == front;
    EncryptionEvent(Run(front), Encrypt(on));
  }
}
