/**
 ACL data path of the HCI engine: fragmenting an L2CAP PDU to the controller's
 packet size, and putting fragments back together per connection handle.
 */
module Acl {
  import opened Bytes

  const MAX_LINKS := 8
  const BUFFER_LEN := 1032

  const FIRST_NONFLUSH := 0
  const CONTINUING := 1
  const FIRST_FLUSH := 2

  type Pdu = seq<byte>

  // ---------------------------------------------------------------------------
  // Wire format
  // ---------------------------------------------------------------------------

  function Packet(handle: u16, pb: int, payload: seq<byte>): seq<byte>
    requires 0 <= pb < 4 && |payload| < 0x1_0000
  {
    Le16(handle % 4096 + 4096 * pb) + Le16(|payload|) + payload
  }

  datatype Parsed = Malformed | Fragment(handle: u16, start: bool, payload: seq<byte>)

  predicate IsStart(pb: int) {
    pb == FIRST_FLUSH || pb == FIRST_NONFLUSH
  }

  /** What the receiver reads out of one ACL packet; bytes after the payload are ignored. */
  function Parse(data: seq<byte>): Parsed {
    if |data| < 4 then Malformed
    else
      var hf := Rd16(data, 0);
      var dlen := Rd16(data, 2);
      if |data| < 4 + dlen then Malformed
      else Fragment(hf % 4096, IsStart(hf / 4096 % 4), data[4..4 + dlen])
  }

  lemma ParsePacket(handle: u16, pb: int, payload: seq<byte>)
    requires 0 <= pb < 4 && |payload| < 0x1_0000
    ensures Parse(Packet(handle, pb, payload)) == Fragment(handle % 4096, IsStart(pb), payload)
  {
    var hf := handle % 4096 + 4096 * pb;
    var p := Packet(handle, pb, payload);
    assert Rd16(p, 0) == hf;
    assert Rd16(p, 2) == |payload|;
    assert p[4..4 + |payload|] == payload;
  }

  // ---------------------------------------------------------------------------
  // Sending
  // ---------------------------------------------------------------------------

  predicate MtuOk(mtu: int) {
    27 <= mtu <= 1024
  }

  function Fragments(handle: u16, mtu: nat, data: seq<byte>, first: bool): (r: seq<seq<byte>>)
    requires MtuOk(mtu)
    decreases |data|
  {
    if data == [] then []
    else
      var n := Min(|data|, mtu);
      [Packet(handle, if first then FIRST_FLUSH else CONTINUING, data[..n])]
      + Fragments(handle, mtu, data[n..], false)
  }

  lemma FragmentAt(handle: u16, mtu: nat, data: seq<byte>, off: nat, first: bool, n: nat) returns (packet: seq<byte>)
    requires MtuOk(mtu) && off < |data| && n == Min(|data| - off, mtu)
    ensures packet == Packet(handle, if first then FIRST_FLUSH else CONTINUING, data[off..off + n])
    ensures Fragments(handle, mtu, data[off..], first) == [packet] + Fragments(handle, mtu, data[off + n..], false)
  {
    packet := Packet(handle, if first then FIRST_FLUSH else CONTINUING, data[off..off + n]);
    assert data[off..][..n] == data[off..off + n] && data[off..][n..] == data[off + n..];
  }

  class Sender {
    var mtu: nat
    const pkt: array<byte>
    /** Every packet the transport took, in order. */
    var wire: seq<seq<byte>>

    ghost predicate Valid()
      reads this
    {
      MtuOk(mtu) && pkt.Length == BUFFER_LEN
    }

    constructor ()
      ensures Valid() && mtu == 1021 && wire == [] && fresh(pkt)
    {
      mtu, wire := 1021, [];
      pkt := new byte[BUFFER_LEN](_ => 0);
    }

    /** Lay one fragment out in the static packet buffer. */
    method Fill(handle: u16, first: bool, chunk: seq<byte>)
      requires Valid() && |chunk| <= mtu
      modifies pkt
      ensures pkt[..4 + |chunk|] == Packet(handle, if first then FIRST_FLUSH else CONTINUING, chunk)
    {
      var hf := handle % 4096 + 4096 * (if first then FIRST_FLUSH else CONTINUING);
      pkt[0], pkt[1] := hf % 0x100, hf / 0x100;
      pkt[2], pkt[3] := |chunk| % 0x100, |chunk| / 0x100;
      forall k | 0 <= k < |chunk| {
        pkt[4 + k] := chunk[k];
      }
      assert pkt[4..4 + |chunk|] == chunk;
      assert pkt[..4] == Le16(hf) + Le16(|chunk|);
      assert pkt[..4 + |chunk|] == pkt[..4] + pkt[4..4 + |chunk|];
    }

    /** Lay out the fragment that starts at an offset of the data. */
    method FillNext(handle: u16, first: bool, data: seq<byte>, off: nat, n: nat)
      requires Valid() && off < |data| && n == Min(|data| - off, mtu)
      modifies pkt
      ensures Fragments(handle, mtu, data[off..], first)
              == [pkt[..4 + n]] + Fragments(handle, mtu, data[off + n..], false)
    {
      ghost var packet := FragmentAt(handle, mtu, data, off, first, n);
      Fill(handle, first, data[off..off + n]);
    }

    /** The first `count` fragments are on the wire; the rest are those of the data from `off` on. */
    ghost predicate SentSoFar(
      was: seq<seq<byte>>, all: seq<seq<byte>>, handle: u16, data: seq<byte>, off: nat, first: bool, count: nat)
      reads this
    {
      && Valid() && off <= |data| && count <= |all| && wire == was + all[..count]
      && Fragments(handle, mtu, data[off..], first) == all[count..]
    }

    method SendNext(handle: u16, first: bool, data: seq<byte>, off: nat, ok: bool,
                    ghost was: seq<seq<byte>>, ghost all: seq<seq<byte>>, ghost count: nat)
      returns (chunk: nat)
      requires SentSoFar(was, all, handle, data, off, first, count) && off < |data|
      modifies this`wire, pkt
      ensures chunk > 0 && count < |all|
      ensures if ok then SentSoFar(was, all, handle, data, off + chunk, false, count + 1) else wire == old(wire)
    {
      chunk := |data| - off;
      if chunk > mtu {
        chunk := mtu;
      }
      FillNext(handle, first, data, off, chunk);
      NextFragment(all, count, pkt[..4 + chunk], Fragments(handle, mtu, data[off + chunk..], false));
      if ok {
        wire := wire + [pkt[..4 + chunk]];
      }
    }

    /** `accept(k)` is the transport's answer to the k-th packet of this call; `n` counts the packets it took. */
    method SendAcl(handle: u16, data: seq<byte>, accept: nat -> bool) returns (ok: bool, ghost n: nat)
      requires Valid() && |data| < 0x1_0000
      modifies this`wire, pkt
      ensures Valid() && n <= |Fragments(handle, mtu, data, true)|
      ensures wire == old(wire) + Fragments(handle, mtu, data, true)[..n]
      ensures forall k: nat | k < n :: accept(k)
      ensures if ok then n == |Fragments(handle, mtu, data, true)|
              else n < |Fragments(handle, mtu, data, true)| && !accept(n)
    {
      ghost var all := Fragments(handle, mtu, data, true);
      var off, first, count := 0, true, 0;
      assert data[0..] == data;
      while off < |data|
        invariant SentSoFar(old(wire), all, handle, data, off, first, count)
        invariant forall k: nat | k < count :: accept(k)
        decreases |data| - off
      {
        var chunk := SendNext(handle, first, data, off, accept(count), old(wire), all, count);
        if !accept(count) {
          return false, count;
        }
        off, first, count := off + chunk, false, count + 1;
      }
      assert all[count..] == [];
      return true, count;
    }
  }

  lemma NextFragment<T>(all: seq<T>, n: nat, x: T, rest: seq<T>)
    requires n <= |all| && all[n..] == [x] + rest
    ensures n < |all| && all[n] == x && all[n + 1..] == rest && all[..n + 1] == all[..n] + [x]
  {
    assert all[n] == all[n..][0];
    assert all[n + 1..] == all[n..][1..];
  }
}
