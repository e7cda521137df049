/** The connection table as the kernel keeps it: an array of slots updated in place. */
module ConnectionTable {
  import opened Bytes
  import opened Connections

  class ConnTable {
    const conns: array<Conn>
    var paging: Option<Addr>
    var notes: seq<Note>
    var changes: seq<Change>
    var auths: seq<u16>

    ghost predicate Valid()
      reads this
    {
      conns.Length == SLOTS
    }

    ghost function View(): Table
      requires Valid()
      reads this, conns
    {
      Table(conns[..], paging, notes, changes, auths)
    }

    constructor ()
      ensures Valid() && View() == EMPTY && fresh(conns)
    {
      conns := new Conn[SLOTS](_ => UNUSED);
      paging, notes, changes, auths := None, [], [], [];
    }

    /** The scan shared by hci_conn_by_addr, hci_conn_by_handle and conn_alloc. */
    method Search(q: Query) returns (i: nat)
      requires Valid()
      ensures i == Find(conns[..], q)
    {
      i := 0;
      assert conns[0..] == conns[..];
      while i < SLOTS
        invariant i <= SLOTS && Find(conns[..], q) == i + Find(conns[i..], q)
      {
        assert conns[i..][1..] == conns[i + 1..];
        if Matches(conns[i], q) {
          return;
        }
        i := i + 1;
      }
    }

    method Connect(handle: u16, addr: Addr, le: bool, role: byte, peerType: Option<byte>)
      requires Valid() && SlotFor(conns[..], addr) < SLOTS
      modifies this`notes, conns
      ensures Valid()
      ensures var base := SlotBase(old(conns[..]), addr);
              View() == Install(old(View()),
                                base.(active := true, handle := handle, peer := addr, le := le, role := role,
                                      peerType := if peerType.Some? then peerType.value else base.peerType))
    {
      var i := Search(ByAddr(addr));
      if i == SLOTS {
        i := Search(Free);
        conns[i] := ZERO;
      }
      ghost var base := SlotBase(old(conns[..]), addr);
      conns[i] := conns[i].(active := true, handle := handle, peer := addr, le := le, role := role);
      if peerType.Some? {
        conns[i] := conns[i].(peerType := peerType.value);
      }
      notes := notes + [Note(handle, true)];
    }

    method ConnComplete(p: seq<byte>)
      requires Valid()
      modifies this, conns
      ensures Valid() && View() == OnClassic(old(View()), p)
    {
      if |p| < 11 {
        return;
      }
      var handle, addr := Rd16(p, 1), p[3..9];
      if p[0] != 0 {
        return;
      }
      var full := NoRoom(addr);
      if full {
        return;
      }
      var outbound := paging == Some(addr);
      if outbound {
        paging := None;
      }
      Connect(handle, addr, false, if outbound then 0 else 1, None);
      auths := auths + [handle];
    }

    method LeConnComplete(p: seq<byte>)
      requires Valid()
      modifies this, conns
      ensures Valid() && View() == OnLe(old(View()), p)
    {
      if |p| < 18 || p[1] != 0 {
        return;
      }
      var handle, addr := Rd16(p, 2), p[6..12];
      var full := NoRoom(addr);
      if full {
        return;
      }
      Connect(handle, addr, true, if p[4] == 0 then 0 else 1, Some(p[5]));
    }

    method NoRoom(addr: Addr) returns (full: bool)
      requires Valid()
      ensures full <==> SlotFor(conns[..], addr) == SLOTS
    {
      var i := Search(ByAddr(addr));
      if i == SLOTS {
        i := Search(Free);
      }
      full := i == SLOTS;
    }

    method DisconnComplete(p: seq<byte>)
      requires Valid()
      modifies this, conns
      ensures Valid() && View() == OnGone(old(View()), p)
    {
      if |p| < 4 {
        return;
      }
      var handle := Rd16(p, 1);
      var i := Search(ByHandle(handle));
      if i < SLOTS {
        notes := notes + [Note(handle, false)];
        conns[i] := conns[i].(active := false, handle := NO_HANDLE);
      }
    }

    method EncryptChange(p: seq<byte>)
      requires Valid()
      modifies this, conns
      ensures Valid() && View() == OnEncryption(old(View()), p)
    {
      if |p| < 4 {
        return;
      }
      var i := Search(ByHandle(Rd16(p, 1)));
      if i < SLOTS {
        conns[i] := conns[i].(encrypted := p[3] != 0);
      }
      changes := changes + [Change(Rd16(p, 1), p[3])];
    }
  }
}
