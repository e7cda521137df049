/**
 Reassembly of ACL fragments into L2CAP PDUs. `Links` is the meaning of the slot
 table: which handles hold a slot, and what each has gathered. The table methods
 are proved against `OnAcl` and `OnDown` on that map; the theorems about whole
 runs are in AclTheorems.
 */
module Reassembly {
  import opened Bytes
  import opened Acl

  /** One link's progress: the awaited PDU length (0: none) and `buf[..have]`. */
  datatype Partial = Partial(want: u16, data: seq<byte>) {
    predicate Valid() {
      |data| <= BUFFER_LEN
    }
  }

  const IDLE := Partial(0, [])

  function Announced(payload: seq<byte>): u16 {
    if |payload| >= 2 then (4 + Rd16(payload, 0)) % 0x1_0000 else 0
  }

  /** One fragment on one link: the new progress, and the PDU delivered, if any. */
  function Feed(p: Partial, start: bool, payload: seq<byte>): (r: (Partial, Option<Pdu>))
    requires p.Valid()
    ensures r.0.Valid()
  {
    var want := if start then Announced(payload) else p.want;
    var data := if start then [] else p.data;
    if start && (want == 0 || want > BUFFER_LEN) then (Partial(want, []), None)
    else if |data| + |payload| > BUFFER_LEN then (IDLE, None)
    else if want != 0 && |data + payload| >= want then (IDLE, Some((data + payload)[..want]))
    else (Partial(want, data + payload), None)
  }

  type Links = m: map<u16, Partial> | forall h <- m :: m[h].Valid()

  function OnAcl(m: Links, data: seq<byte>): (Links, seq<(u16, Pdu)>) {
    match Parse(data)
    case Malformed => (m, [])
    case Fragment(h, start, payload) => OnFragment(m, h, start, payload)
  }

  function OnFragment(m: Links, h: u16, start: bool, payload: seq<byte>): (Links, seq<(u16, Pdu)>) {
    if h !in m && |m| >= MAX_LINKS then (m, [])
    else
      var (p, pdu) := Feed(if h in m then m[h] else IDLE, start, payload);
      (m[h := p], if pdu.Some? then [(h, pdu.value)] else [])
  }

  function OnDown(m: Links, h: u16): Links {
    m - {h}
  }

  // ---------------------------------------------------------------------------
  // The slot table
  // ---------------------------------------------------------------------------

  datatype Slot = Slot(inUse: bool, handle: u16, progress: Partial)

  predicate SlotsOk(s: seq<Slot>) {
    && (forall i | 0 <= i < |s| :: s[i].progress.Valid())
    && (forall i, j | 0 <= i < j < |s| && s[i].inUse && s[j].inUse :: s[i].handle != s[j].handle)
  }

  function LinksOf(s: seq<Slot>): Links
    requires SlotsOk(s)
  {
    if s == [] then map[]
    else
      var front, last := s[..|s| - 1], s[|s| - 1];
      if last.inUse then LinksOf(front)[last.handle := last.progress] else LinksOf(front)
  }

  function InUse(s: seq<Slot>): nat {
    if s == [] then 0 else InUse(s[..|s| - 1]) + if s[|s| - 1].inUse then 1 else 0
  }

  /** A slot in use is found under its own handle, and every link found sits in such a slot. */
  lemma {:induction false} LinksAt(s: seq<Slot>)
    requires SlotsOk(s)
    ensures forall i | 0 <= i < |s| && s[i].inUse ::
              s[i].handle in LinksOf(s) && LinksOf(s)[s[i].handle] == s[i].progress
    ensures forall h <- LinksOf(s) :: exists i | 0 <= i < |s| :: s[i].inUse && s[i].handle == h
  {
    if s != [] {
      var front, last := s[..|s| - 1], s[|s| - 1];
      LinksAt(front);
      forall h | h in LinksOf(s)
        ensures exists i | 0 <= i < |s| :: s[i].inUse && s[i].handle == h
      {
        if last.inUse && h == last.handle {
          assert s[|s| - 1].inUse;
        } else {
          assert h in LinksOf(front);
          var i :| 0 <= i < |front| && front[i].inUse && front[i].handle == h;
          assert s[i].inUse;
        }
      }
      forall i | 0 <= i < |s| && s[i].inUse
        ensures s[i].handle in LinksOf(s) && LinksOf(s)[s[i].handle] == s[i].progress
      {
        assert i < |front| ==> front[i] == s[i];
      }
    }
  }

  /** Writing one slot is one map update, as long as no other slot in use has that handle. */
  lemma LinksUpdate(s: seq<Slot>, i: nat, h: u16, p: Partial)
    requires SlotsOk(s) && i < |s| && p.Valid()
    requires if s[i].inUse then s[i].handle == h else h !in LinksOf(s)
    ensures SlotsOk(s[i := Slot(true, h, p)])
    ensures LinksOf(s[i := Slot(true, h, p)]) == LinksOf(s)[h := p]
  {
    LinksAt(s);
    var t := s[i := Slot(true, h, p)];
    LinksAt(t);
    forall k | k in LinksOf(s)[h := p]
      ensures k in LinksOf(t) && LinksOf(t)[k] == LinksOf(s)[h := p][k]
    {
      if k == h {
        assert t[i].inUse;
      } else {
        var j :| 0 <= j < |s| && s[j].inUse && s[j].handle == k;
        assert t[j].inUse;
      }
    }
    forall k | k in LinksOf(t)
      ensures k in LinksOf(s)[h := p]
    {
      var j :| 0 <= j < |t| && t[j].inUse && t[j].handle == k;
    }
  }

  lemma {:induction false} LinksCount(s: seq<Slot>)
    requires SlotsOk(s)
    ensures |LinksOf(s)| == InUse(s)
  {
    if s != [] {
      var front, last := s[..|s| - 1], s[|s| - 1];
      LinksCount(front);
      LinksAt(front);
      if last.inUse {
        assert last.handle !in LinksOf(front);
        assert LinksOf(s).Keys == LinksOf(front).Keys + {last.handle};
      }
    }
  }

  lemma {:induction false} InUseBound(s: seq<Slot>)
    ensures InUse(s) <= |s|
    ensures InUse(s) == |s| <==> forall i | 0 <= i < |s| :: s[i].inUse
  {
    if s != [] {
      InUseBound(s[..|s| - 1]);
      assert s == s[..|s| - 1] + [s[|s| - 1]];
    }
  }

  class Reassembler {
    const slots: array<Slot>
    /** What the L2CAP sink was handed, in order. */
    var delivered: seq<(u16, Pdu)>

    ghost predicate Valid()
      reads this, slots
    {
      slots.Length == MAX_LINKS && SlotsOk(slots[..])
    }

    ghost function View(): Links
      requires Valid()
      reads this, slots
    {
      LinksOf(slots[..])
    }

    constructor ()
      ensures Valid() && View() == map[] && delivered == [] && fresh(slots)
    {
      slots := new Slot[MAX_LINKS](_ => Slot(false, 0xFFFF, IDLE));
      delivered := [];
      new;
      LinksAt(slots[..]);
    }

    /** Find the handle's slot, or claim a free one; -1 when all eight belong to other handles. */
    method SlotFor(handle: u16) returns (i: int)
      requires Valid()
      modifies slots
      ensures Valid() && -1 <= i < MAX_LINKS
      ensures i == -1 <==> old(handle !in View() && |View()| >= MAX_LINKS)
      ensures i == -1 ==> View() == old(View())
      ensures i >= 0 ==> slots[i].inUse && slots[i].handle == handle
      ensures i >= 0 ==> View() == old(View())[handle := slots[i].progress]
      ensures i >= 0 ==> slots[i].progress == old(if handle in View() then View()[handle] else IDLE)
    {
      i := Find(handle);
      if i < 0 {
        i := Claim(handle);
      }
    }

    /** The slot in use by a handle. */
    method Find(handle: u16) returns (i: int)
      requires Valid()
      ensures -1 <= i < MAX_LINKS && (i >= 0 <==> handle in View())
      ensures i >= 0 ==> slots[i].inUse && slots[i].handle == handle && View()[handle] == slots[i].progress
    {
      LinksAt(slots[..]);
      for k := 0 to MAX_LINKS
        invariant forall j | 0 <= j < k :: !(slots[j].inUse && slots[j].handle == handle)
      {
        if slots[k].inUse && slots[k].handle == handle {
          assert slots[..][k].inUse;
          return k;
        }
      }
      return -1;
    }

    /** Give a new handle the first free slot. */
    method Claim(handle: u16) returns (i: int)
      requires Valid() && handle !in View()
      modifies slots
      ensures Valid() && -1 <= i < MAX_LINKS && (i == -1 <==> |old(View())| >= MAX_LINKS)
      ensures i == -1 ==> View() == old(View())
      ensures i >= 0 ==> slots[i] == Slot(true, handle, IDLE) && View() == old(View())[handle := IDLE]
    {
      LinksCount(slots[..]);
      InUseBound(slots[..]);
      for k := 0 to MAX_LINKS
        invariant forall j | 0 <= j < k :: slots[j].inUse
        invariant slots[..] == old(slots[..])
      {
        if !slots[k].inUse {
          assert !slots[..][k].inUse;
          LinksUpdate(slots[..], k, handle, IDLE);
          slots[k] := Slot(true, handle, IDLE);
          assert slots[..] == old(slots[..])[k := Slot(true, handle, IDLE)];
          return k;
        }
      }
      assert forall j | 0 <= j < |slots[..]| :: slots[..][j].inUse;
      return -1;
    }

    method Receive(data: seq<byte>)
      requires Valid() && |data| < 0x1_0000
      modifies this`delivered, slots
      ensures Valid()
      ensures View() == OnAcl(old(View()), data).0
      ensures delivered == old(delivered) + OnAcl(old(View()), data).1
    {
      if |data| < 4 {
        return;
      }
      var hf: int, dlen: int := Rd16(data, 0), Rd16(data, 2);
      var handle, pb := hf % 4096, hf / 4096 % 4;
      if |data| < 4 + dlen {
        return;
      }
      Accept(handle, IsStart(pb), data[4..4 + dlen]);
    }

    /** One fragment, once its packet header has been read. */
    method Accept(handle: u16, start: bool, payload: seq<byte>)
      requires Valid() && |payload| < 0x1_0000
      modifies this`delivered, slots
      ensures Valid()
      ensures View() == OnFragment(old(View()), handle, start, payload).0
      ensures delivered == old(delivered) + OnFragment(old(View()), handle, start, payload).1
    {
      var i := SlotFor(handle);
      if i >= 0 {
        Gather(i, start, payload);
      }
    }

    /** The rest of `hci_on_acl`, once the slot is known. */
    method Gather(i: nat, start: bool, payload: seq<byte>)
      requires Valid() && i < MAX_LINKS && slots[i].inUse
      modifies this`delivered, slots
      ensures Valid()
      ensures var (p, pdu) := Feed(old(slots[i].progress), start, payload);
              && View() == old(View())[old(slots[i].handle) := p]
              && delivered == old(delivered) + if pdu.Some? then [(old(slots[i].handle), pdu.value)] else []
    {
      var r := slots[i].progress;
      if start {
        r := IDLE;
        if |payload| >= 2 {
          r := r.(want := (4 + Rd16(payload, 0)) % 0x1_0000);
        }
        if r.want == 0 || r.want > BUFFER_LEN {
          Store(i, r);
          return;
        }
      }
      if |r.data| + |payload| > BUFFER_LEN {
        Store(i, IDLE);
        return;
      }
      r := r.(data := r.data + payload);
      if r.want != 0 && |r.data| >= r.want {
        delivered := delivered + [(slots[i].handle, r.data[..r.want])];
        r := IDLE;
      }
      Store(i, r);
    }

    method Store(i: nat, r: Partial)
      requires Valid() && i < MAX_LINKS && slots[i].inUse && r.Valid()
      modifies slots
      ensures Valid() && View() == old(View())[slots[i].handle := r]
      ensures slots[i].handle == old(slots[i].handle)
    {
      var h := slots[i].handle;
      LinksUpdate(slots[..], i, h, r);
      slots[i] := slots[i].(progress := r);
      assert slots[..] == old(slots[..])[i := Slot(true, h, r)];
    }

    /** The part of `ev_disconn_complete` that frees the link's slot. */
    method Drop(handle: u16)
      requires Valid()
      modifies slots
      ensures Valid() && View() == OnDown(old(View()), handle)
    {
      ghost var was := slots[..];
      for i := 0 to MAX_LINKS
        invariant forall j | i <= j < MAX_LINKS :: slots[j] == was[j]
        invariant forall j | 0 <= j < i :: slots[j] == was[j].(inUse := was[j].inUse && was[j].handle != handle)
      {
        if slots[i].inUse && slots[i].handle == handle {
          slots[i] := slots[i].(inUse := false);
        }
      }
      DropIsOnDown(was, slots[..], handle);
    }
  }

  lemma DropIsOnDown(was: seq<Slot>, now: seq<Slot>, handle: u16)
    requires SlotsOk(was) && |now| == |was|
    requires forall j | 0 <= j < |was| :: now[j] == was[j].(inUse := was[j].inUse && was[j].handle != handle)
    ensures SlotsOk(now) && LinksOf(now) == OnDown(LinksOf(was), handle)
  {
    assert SlotsOk(now);
    LinksAt(was);
    LinksAt(now);
    forall h | h in OnDown(LinksOf(was), handle)
      ensures h in LinksOf(now) && LinksOf(now)[h] == LinksOf(was)[h]
    {
      var i :| 0 <= i < |was| && was[i].inUse && was[i].handle == h;
      assert now[i].inUse;
    }
  }
}
