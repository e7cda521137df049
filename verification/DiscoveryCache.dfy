/** The advertising parser's loops and the device cache as the kernel keeps it. */
module DiscoveryCache {
  import opened Bytes
  import opened Discovery

  method CopyName(name: seq<byte>, val: seq<byte>) returns (r: seq<byte>)
    requires |name| == NAME_LEN
    ensures r == SetName(name, val)
  {
    var n := if |val| < NAME_LEN - 1 then |val| else NAME_LEN - 1;
    r := name;
    for k := 0 to n
      invariant |r| == NAME_LEN && r[..k] == val[..k] && r[k..] == name[k..]
    {
      r := r[k := val[k]];
    }
    r := r[n := 0];
    assert r == val[..n] + [0] + name[n + 1..];
  }

  method ScanUuids(val: seq<byte>) returns (hid: bool)
    ensures hid == HasHidUuid(val)
  {
    hid := false;
    var k := 0;
    assert val[0..] == val;
    while k + 1 < |val|
      invariant 0 <= k <= |val| && HasHidUuid(val) == (hid || HasHidUuid(val[k..]))
      decreases |val| - k
    {
      var u := Rd16(val, k);
      assert val[k..][2..] == val[k + 2..];
      assert Rd16(val[k..], 0) == u;
      if u == 0x1812 || u == 0x1124 {
        hid := true;
      }
      k := k + 2;
    }
  }

  /** The effect of one advertising structure. */
  method Absorb(dev: Dev, kind: byte, val: seq<byte>) returns (d: Dev)
    requires |dev.name| == NAME_LEN
    ensures d == Apply(dev, kind, val)
  {
    d := dev;
    if kind == 0x08 || kind == 0x09 {
      var name := CopyName(d.name, val);
      d := d.(name := name);
    } else if kind == 0x02 || kind == 0x03 {
      var hid := ScanUuids(val);
      if hid {
        d := d.(isHid := true);
      }
    } else if kind == 0x19 {
      if |val| >= 2 {
        var ap := Rd16(val, 0);
        if ap == 0x03C1 {
          d := d.(isHid := true, appearance := 1);
        } else if ap == 0x03C2 {
          d := d.(isHid := true, appearance := 2);
        } else if ap / 0x40 == 0x0F {
          d := d.(isHid := true);
        }
      }
    }
  }

  method ParseAdvData(dev: Dev, ad: seq<byte>) returns (d: Dev)
    requires |dev.name| == NAME_LEN
    ensures d == ParseAdv(dev, ad)
  {
    d := dev;
    var i := 0;
    assert ad[0..] == ad;
    while i + 2 <= |ad|
      invariant 0 <= i <= |ad| && |d.name| == NAME_LEN
      invariant ParseAdv(d, ad[i..]) == ParseAdv(dev, ad)
      decreases |ad| - i
    {
      var len: int := ad[i];
      if len == 0 || i + 1 + len > |ad| {
        break;
      }
      var kind := ad[i + 1];
      var val := ad[i + 2..i + 1 + len];
      assert ad[i..][2..1 + len] == val && ad[i..][1 + len..] == ad[i + 1 + len..];
      d := Absorb(d, kind, val);
      i := i + 1 + len;
    }
  }

  class Devices {
    const disc: array<Dev>
    var count: nat
    /** HID-found callbacks made since the last clear. */
    var fired: seq<Key>

    ghost predicate Valid()
      reads this, disc
    {
      disc.Length == CAPACITY && count <= CAPACITY && NamesSized(disc[..count])
    }

    ghost function View(): Cache
      requires Valid()
      reads this, disc
    {
      Cache(disc[..count], fired)
    }

    constructor ()
      ensures Valid() && View() == Cache([], []) && fresh(disc)
    {
      disc := new Dev[CAPACITY](_ => Blank(Key([], false)));
      count, fired := 0, [];
    }

    method Reset()
      requires Valid()
      modifies this
      ensures Valid() && View() == Step(old(View()), Clear)
    {
      count := 0;
      fired := [];
    }

    method Search(key: Key) returns (i: nat)
      requires Valid()
      ensures i == FindDev(disc[..count], key)
    {
      i := 0;
      assert disc[0..count] == disc[..count];
      while i < count
        invariant i <= count && FindDev(disc[..count], key) == i + FindDev(disc[i..count], key)
      {
        assert disc[i..count][1..] == disc[i + 1..count];
        if disc[i].key == key {
          return;
        }
        i := i + 1;
      }
    }

    /** One report about one device: find or add it, update it, and call back if it just became HID. */
    method Update(addr: Addr, s: Sighting)
      requires Valid()
      modifies this, disc
      ensures Valid() && View() == See(old(View()), addr, s)
    {
      var key := Key(addr, s.LeReport?);
      var i := Search(key);
      var fresh' := i == count;
      if fresh' && count >= CAPACITY {
        return;
      }
      var d := if fresh' then Blank(key) else disc[i];
      assert fresh' || d == disc[..count][i];
      var wasHid := d.isHid;
      match s {
        case LeReport(addrType, advType, rssi, ad) =>
          d := d.(addrType := addrType, advType := advType, rssi := rssi);
          d := ParseAdvData(d, ad);
        case Inquiry(rssi, cod, eir) =>
          d := d.(addrType := 0, advType := 0xFF, cod := cod);
          if rssi != 0 {
            d := d.(rssi := rssi);
          }
          d := ParseAdvData(ClassOf(d, cod), eir);
      }
      Put(i, d);
      if d.isHid && !wasHid {
        fired := fired + [key];
      }
    }

    method Put(i: nat, d: Dev)
      requires Valid() && i <= count && (i == count ==> count < CAPACITY) && |d.name| == NAME_LEN
      modifies this`count, disc
      ensures Valid() && fired == old(fired)
      ensures disc[..count] == if i < old(count) then old(disc[..count])[i := d] else old(disc[..count]) + [d]
    {
      disc[i] := d;
      if i == count {
        count := count + 1;
        assert disc[..count] == old(disc[..count]) + [d];
      } else {
        assert disc[..count] == old(disc[..count])[i := d];
      }
    }

    method UpdateTowards(addr: Addr, s: Sighting, ghost rest: seq<(Addr, Sighting)>, ghost goal: Cache)
      requires Valid() && SeeAll(View(), [(addr, s)] + rest) == goal
      modifies this, disc
      ensures Valid() && SeeAll(View(), rest) == goal
    {
      SeeOne(View(), addr, s, rest);
      Update(addr, s);
    }

    /** One report; `more` is false when it does not fit in the event. */
    method OneReport(p: seq<byte>, off: nat, num: nat, ghost goal: Cache) returns (more: bool, next: nat)
      requires Valid() && off >= 2 && num > 0 && SeeAll(View(), DecodeReports(p, off, num)) == goal
      modifies this, disc
      ensures Valid() && next >= 2
      ensures goal == if more then SeeAll(View(), DecodeReports(p, next, num - 1)) else View()
    {
      more, next := !ReportCut(p, off), off;
      if more {
        var dlen: int := p[off + 8];
        var addr, s := p[off + 2..off + 8],
                       LeReport(p[off + 1], p[off], Signed(p[off + 9 + dlen]), p[off + 9..off + 9 + dlen]);
        next := off + 10 + dlen;
        ghost var rest := DecodeReports(p, next, num - 1);
        ReportFirst(p, off, num, dlen, addr, s);
        UpdateTowards(addr, s, rest, goal);
      } else {
        CutReportStops(View(), p, off, num);
      }
    }

    method OnAdvReport(p: seq<byte>)
      requires Valid()
      modifies this, disc
      ensures Valid() && View() == Step(old(View()), AdvReport(p))
    {
      if |p| >= 2 {
        ReadReports(p, p[1]);
      }
    }

    /** The loop over the reports of one event. */
    method ReadReports(p: seq<byte>, num: nat)
      requires Valid()
      modifies this, disc
      ensures Valid() && View() == SeeAll(old(View()), DecodeReports(p, 2, num))
    {
      ghost var goal := SeeAll(View(), DecodeReports(p, 2, num));
      var off := 2;
      for r := 0 to num
        invariant Valid() && off >= 2
        invariant SeeAll(View(), DecodeReports(p, off, num - r)) == goal
      {
        var more;
        more, off := OneReport(p, off, num - r, goal);
        if !more {
          return;
        }
      }
      NoReports(View(), p, off);
    }

    method OnInquiry(p: seq<byte>, rssi: bool)
      requires Valid()
      modifies this, disc
      ensures Valid() && View() == Step(old(View()), if rssi then InquiryRssi(p) else InquiryResult(p))
    {
      if |p| >= 1 {
        ReadInquiry(p, p[0], rssi);
      }
    }

    /** The loop over the entries of one event. */
    method ReadInquiry(p: seq<byte>, num: nat, rssi: bool)
      requires Valid()
      modifies this, disc
      ensures Valid() && View() == SeeAll(old(View()), DecodeInquiry(p, num, 0, rssi))
    {
      ghost var goal := SeeAll(View(), DecodeInquiry(p, num, 0, rssi));
      for i := 0 to num
        invariant Valid()
        invariant SeeAll(View(), DecodeInquiry(p, num, i, rssi)) == goal
      {
        if !InquiryFits(p, num, i, rssi) {
          InquiryEnds(View(), p, num, i, rssi);
          return;
        }
        InquiryFirst(p, num, i, rssi);
        var entry := InquiryEntry(p, num, i, rssi);
        UpdateTowards(entry.0, entry.1, DecodeInquiry(p, num, i + 1, rssi), goal);
      }
      InquiryEnds(View(), p, num, num, rssi);
    }

    method OnExtInquiry(p: seq<byte>)
      requires Valid()
      modifies this, disc
      ensures Valid() && View() == Step(old(View()), ExtInquiry(p))
    {
      if |p| < 15 {
        return;
      }
      var s := Sighting.Inquiry(Signed(p[14]), Cod(p, 9), p[15..]);
      SeeOne(View(), p[1..7], s, []);
      assert Decode(ExtInquiry(p)) == [(p[1..7], s)] + [];
      Update(p[1..7], s);
    }
  }
}
