/** The client's PDUs, byte by byte. */
module GattWire {
  import opened Bytes
  import opened GattSession
  import opened GattSubscribe

  /** Every request the client makes. */
  lemma RequestBytes(start: u16, end: u16, handle: u16, value: Octets)
    ensures MTU_PDU == [0x02, 0xF7, 0x00]
    ensures GroupReq(start) == [0x10, start % 0x100, start / 0x100, 0xFF, 0xFF, 0x00, 0x28]
    ensures TypeReq(start, end) == [0x08, start % 0x100, start / 0x100, end % 0x100, end / 0x100, 0x03, 0x28]
    ensures InfoReq(start, end) == [0x04, start % 0x100, start / 0x100, end % 0x100, end / 0x100]
    ensures WriteReq(handle, value) == [0x12, handle % 0x100, handle / 0x100] + value
  {
  }

  /** Subscribing writes 1 to the CCCD; the protocol mode is written as 0 for boot and 1 for report mode. */
  lemma WriteBytes(s: Session, r: Report)
    ensures Subscribe(r) == [0x12, r.cccd % 0x100, r.cccd / 0x100, 1, 0]
    ensures ModeWrite(s) == [0x12, s.protoMode % 0x100, s.protoMode / 0x100, if HaveBoot(s.reports) then 0 else 1]
  {
  }

  /** The MTU agreed is the peer's, at most 247, and service discovery starts at the first handle. */
  lemma MtuIsAgreed(s: Session, p: Octets)
    requires p != [] && p[0] == 0x03 && -1 <= s.enableIdx
    ensures var t := Input(s, p);
            && t.sent == s.sent + [[0x10, 0x01, 0x00, 0xFF, 0xFF, 0x00, 0x28]] && t.state == Svc
            && (if |p| < 3 then t.mtu == s.mtu
                else t.mtu <= 247 && t.mtu <= Rd16(p, 1) && (t.mtu == 247 || t.mtu == Rd16(p, 1)))
  {
    RequestBytes(1, 0, 0, []);
    assert Input(s, p) == OnMtu(s, p);
  }

  /** A PDU the client has no handler for. */
  predicate Unhandled(op: byte) {
    op !in {0x01, 0x03, 0x05, 0x09, 0x11, 0x13, 0x1B}
  }

  /** It is refused with "request not supported", unless it is a command, an indication or a confirmation. */
  lemma RequestsAreRefused(s: Session, p: Octets)
    requires p != [] && Unhandled(p[0]) && -1 <= s.enableIdx
    ensures Input(s, p)
            == if 0x40 <= p[0] < 0x80 || 0xC0 <= p[0] || p[0] == 0x1D || p[0] == 0x1E then s
               else if |p| >= 3 then s.(replies := s.replies + [[0x01, p[0], p[1], p[2], 0x06]])
               else s.(replies := s.replies + [[0x01, p[0], 0x00, 0x00, 0x06]])
  {
    assert NeedsRefusal(p[0]) <==> !(0x40 <= p[0] < 0x80 || 0xC0 <= p[0] || p[0] == 0x1D || p[0] == 0x1E);
    if |p| >= 3 {
      Le16OfRd16(p, 1);
      assert Refusal(p) == [0x01, p[0], p[1], p[2], 0x06];
    } else {
      assert Refusal(p) == [0x01, p[0], 0x00, 0x00, 0x06];
    }
  }

  lemma Le16OfRd16(p: Octets, i: nat)
    requires i + 1 < |p|
    ensures Le16(Rd16(p, i)) == [p[i], p[i + 1]]
  {
  }

  /**
   A PDU that changes nothing: a notification, a response too short to read, a write response
   while nothing is being enabled, and "attribute not found" outside the phases that look for any.
   */
  lemma OthersChangeNothing(s: Session, p: Octets)
    requires Readable(p) && -1 <= s.enableIdx
    requires || p[0] == 0x1B
             || (p[0] in {0x05, 0x09, 0x11} && |p| < 2) || (p[0] == 0x01 && |p| < 5)
             || (p[0] == 0x13 && s.state != Enable)
             || (p[0] == 0x01 && |p| >= 5 && p[4] == 0x0A && s.state in {Idle, Mtu, Enable, Ready, Failed})
    ensures Input(s, p) == s
  {
  }
}
