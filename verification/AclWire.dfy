/** The bytes of an ACL packet: what the sender puts where, and what the receiver takes from where. */
module AclWire {
  import opened Bytes
  import opened Acl

  function Field(p: seq<byte>, i: nat): int
    requires i + 1 < |p|
  {
    (p[i] as int) + 0x100 * (p[i + 1] as int)
  }

  /**
   A packet with the data from `off` on, as much as fits: a handle of twelve bits below
   the boundary flag 2 of a start or 1 of a continuation, the length, and the bytes.
   */
  predicate Carries(p: seq<byte>, handle: u16, starts: bool, data: seq<byte>, off: int, mtu: int) {
    && 0 <= off < |data| && mtu > 0
    && var n := Min(|data| - off, mtu);
       && |p| == 4 + n && p[4..] == data[off..off + n]
       && Field(p, 0) == handle % 4096 + (if starts then 0x2000 else 0x1000)
       && Field(p, 2) == n
  }

  lemma PacketCarries(handle: u16, mtu: nat, data: seq<byte>, first: bool)
    requires 27 <= mtu <= 1024 && data != []
    ensures Carries(Fragments(handle, mtu, data, first)[0], handle, first, data, 0, mtu)
  {
    var n := Min(|data|, mtu);
    var p := Packet(handle, if first then FIRST_FLUSH else CONTINUING, data[..n]);
    assert Rd16(p, 0) == handle % 4096 + (if first then 0x2000 else 0x1000);
    assert Rd16(p, 2) == n && p[4..] == data[..n];
  }

  lemma CarriesShifted(p: seq<byte>, handle: u16, data: seq<byte>, m: nat, off: int, mtu: int)
    requires m <= |data| && Carries(p, handle, false, data[m..], off, mtu)
    ensures Carries(p, handle, false, data, m + off, mtu)
  {
    var n := Min(|data[m..]| - off, mtu);
    assert data[m..][off..off + n] == data[m + off..m + off + n];
  }

  lemma NextFragment(handle: u16, mtu: nat, data: seq<byte>, first: bool, i: nat)
    requires 27 <= mtu <= 1024 && 0 < i < |Fragments(handle, mtu, data, first)|
    ensures mtu < |data| && i - 1 < |Fragments(handle, mtu, data[mtu..], false)|
    ensures Fragments(handle, mtu, data, first)[i] == Fragments(handle, mtu, data[mtu..], false)[i - 1]
  {
    if |data| <= mtu {
      assert false;
    }
  }

  lemma OneMore(i: int, m: int)
    ensures m + (i - 1) * m == i * m
  {
  }

  /** The i-th packet carries the i-th slice, and only packet 0 is flagged as the start. */
  lemma {:induction false} FragmentBytes(handle: u16, mtu: nat, data: seq<byte>, first: bool, i: nat)
    requires 27 <= mtu <= 1024 && i < |Fragments(handle, mtu, data, first)|
    ensures Carries(Fragments(handle, mtu, data, first)[i], handle, first && i == 0, data, i * mtu, mtu)
    decreases i
  {
    if i == 0 {
      PacketCarries(handle, mtu, data, first);
    } else {
      NextFragment(handle, mtu, data, first, i);
      FragmentBytes(handle, mtu, data[mtu..], false, i - 1);
      CarriesShifted(Fragments(handle, mtu, data, first)[i], handle, data, mtu, (i - 1) * mtu, mtu);
      OneMore(i, mtu);
    }
  }

  /** A packet is read exactly when it is as long as it says; a start has the low flag bit clear. */
  lemma HeaderIsRead(p: seq<byte>)
    ensures Parse(p).Malformed? <==> |p| < 4 || |p| < 4 + Field(p, 2)
    ensures !Parse(p).Malformed? ==>
              && Parse(p).handle == (p[0] as int) + 0x100 * ((p[1] as int) % 16)
              && (Parse(p).start <==> (p[1] as int) / 16 % 2 == 0)
              && Parse(p).payload == p[4..4 + Field(p, 2)]
  {
  }
}
