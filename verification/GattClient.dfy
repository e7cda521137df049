/**
 The GATT client as the kernel runs it: one session record whose handlers update
 it in place. Each handler is proved against its value-level meaning.
 */
module GattClient {
  import opened Bytes
  import opened GattSession

  class Client {
    var state: State
    var mtu: u16
    var hidStart: u16
    var hidEnd: u16
    var protoMode: u16
    const rep: array<Report>
    var nrep: nat
    const cccdTmp: array<u16>
    var ncccd: nat
    var enableIdx: int
    var lastReq: byte
    var pairingKicked: bool
    var attached: bool
    /** ATT requests handed to L2CAP, error replies, and pairing starts. */
    var sent: seq<Octets>
    var replies: seq<Octets>
    var pairings: nat

    ghost predicate Valid()
      reads this
    {
      && rep.Length == MAX_REPORTS && nrep <= MAX_REPORTS
      && cccdTmp.Length == MAX_CCCDS && ncccd <= MAX_CCCDS
      && -1 <= enableIdx
    }

    ghost function View(): Session
      requires Valid()
      reads this, rep, cccdTmp
    {
      Session(state, mtu, hidStart, hidEnd, protoMode, rep[..nrep], cccdTmp[..ncccd], enableIdx, lastReq,
              pairingKicked, attached, sent, replies, pairings)
    }

    constructor ()
      ensures Valid() && View() == FRESH && fresh(rep) && fresh(cccdTmp)
    {
      state, mtu, hidStart, hidEnd, protoMode := Idle, 23, 0, 0, 0;
      rep := new Report[MAX_REPORTS](_ => Report(0, 0, Unknown, false));
      cccdTmp := new u16[MAX_CCCDS](_ => 0);
      nrep, ncccd, enableIdx, lastReq := 0, 0, 0, 0;
      pairingKicked, attached := false, false;
      sent, replies, pairings := [], [], 0;
    }

    method AttSend(pdu: Octets)
      requires Valid() && pdu != []
      modifies this`lastReq, this`sent
      ensures Valid() && View() == Send(old(View()), pdu)
    {
      lastReq := pdu[0];
      sent := sent + [pdu];
    }

    /** Link up: open the session with an MTU exchange. */
    method LinkUp()
      requires Valid()
      modifies this
      ensures Valid() && View() == SendMtu(old(View()))
    {
      state := Mtu;
      AttSend(MTU_PDU);
    }

    /** The parsing loop of `on_group_rsp`. */
    method ScanGroupRsp(p: Octets) returns (lastEnd: u16)
      requires Valid() && |p| >= 2 && p[1] >= 4
      modifies this`hidStart, this`hidEnd
      ensures Valid() && View() == old(View()).(hidStart := hidStart, hidEnd := hidEnd)
      ensures ServiceScan(hidStart, hidEnd, lastEnd)
              == ScanServices(ServiceScan(old(hidStart), old(hidEnd), 0), Entries(p[2..], p[1]))
    {
      var elen: int := p[1];
      var i := 2;
      lastEnd := 0;
      ghost var whole := ScanServices(ServiceScan(hidStart, hidEnd, 0), Entries(p[2..], elen));
      while i + elen <= |p|
        invariant 2 <= i <= |p|
        invariant ScanServices(ServiceScan(hidStart, hidEnd, lastEnd), Entries(p[i..], elen)) == whole
        decreases |p| - i
      {
        ServiceAt(ServiceScan(hidStart, hidEnd, lastEnd), p, i, elen);
        var h, end := Rd16(p, i), Rd16(p, i + 2);
        lastEnd := end;
        if elen == 6 {
          var uuid := Rd16(p, i + 4);
          if uuid == HID_SERVICE {
            hidStart, hidEnd := h, end;
          }
        }
        i := i + elen;
      }
      EntriesAt(p, i, elen);
    }

    method OnGroupRsp(p: Octets)
      requires Valid() && (|p| >= 2 ==> p[1] >= 4)
      modifies this
      ensures Valid() && View() == OnGroup(old(View()), p)
    {
      if |p| < 2 {
        return;
      }
      var lastEnd: int := ScanGroupRsp(p);
      if hidStart != 0 {
        nrep := 0;
        state := Char;
        AttSend(TypeReq(hidStart, hidEnd));
      } else if lastEnd < 0xFFFF {
        state := Svc;
        AttSend(GroupReq(lastEnd + 1));
      } else {
        state := Failed;
      }
    }

    /** The parsing loop of `on_type_rsp`. */
    method ScanTypeRsp(p: Octets) returns (last: u16)
      requires Valid() && |p| >= 2 && p[1] >= 5
      modifies this`protoMode, this`nrep, rep
      ensures Valid() && View() == old(View()).(protoMode := protoMode, reports := rep[..nrep])
      ensures CharScan(protoMode, rep[..nrep], last)
              == ScanChars(CharScan(old(protoMode), old(rep[..nrep]), 0), Entries(p[2..], p[1]))
    {
      var elen: int := p[1];
      var i := 2;
      last := 0;
      ghost var whole := ScanChars(CharScan(protoMode, rep[..nrep], 0), Entries(p[2..], elen));
      while i + elen <= |p|
        invariant 2 <= i <= |p| && Valid()
        invariant ScanChars(CharScan(protoMode, rep[..nrep], last), Entries(p[i..], elen)) == whole
        decreases |p| - i
      {
        CharAt(CharScan(protoMode, rep[..nrep], last), p, i, elen);
        var decl, props, val := Rd16(p, i), p[i + 2], Rd16(p, i + 3);
        last := decl;
        if elen == 7 {
          var uuid := Rd16(p, i + 5);
          if uuid == PROTOCOL_MODE {
            protoMode := val;
          } else if IsReportUuid(uuid) && CanNotify(props) && nrep < MAX_REPORTS {
            AddReport(NewReport(val, uuid));
          }
        }
        i := i + elen;
      }
      EntriesAt(p, i, elen);
    }

    method OnTypeRsp(p: Octets)
      requires Valid() && (|p| >= 2 ==> p[1] >= 5)
      modifies this, rep
      ensures Valid() && View() == OnType(old(View()), p)
    {
      if |p| < 2 {
        return;
      }
      var last: int := ScanTypeRsp(p);
      if last != 0 && last < hidEnd {
        state := Char;
        AttSend(TypeReq(last + 1, hidEnd));
        return;
      }
      ncccd := 0;
      state := Desc;
      AttSend(InfoReq(hidStart, hidEnd));
    }

    method AddReport(r: Report)
      requires Valid() && nrep < MAX_REPORTS
      modifies this`nrep, rep
      ensures Valid() && View() == old(View()).(reports := old(rep[..nrep]) + [r])
    {
      rep[nrep] := r;
      nrep := nrep + 1;
      assert rep[..nrep] == old(rep[..nrep]) + [r];
    }

    /** The parsing loop of `on_find_info_rsp`. */
    method ScanInfoRsp(p: Octets) returns (last: u16)
      requires Valid() && |p| >= 2
      modifies this`ncccd, cccdTmp
      ensures Valid() && View() == old(View()).(cccds := cccdTmp[..ncccd])
      ensures InfoScan(cccdTmp[..ncccd], last)
              == ScanInfos(InfoScan(old(cccdTmp[..ncccd]), 0), Entries(p[2..], InfoSize(p[1])))
    {
      var fmt := p[1];
      var esz := InfoSize(fmt);
      var i := 2;
      last := 0;
      ghost var whole := ScanInfos(InfoScan(cccdTmp[..ncccd], 0), Entries(p[2..], esz));
      while i + esz <= |p|
        invariant 2 <= i <= |p| && Valid()
        invariant ScanInfos(InfoScan(cccdTmp[..ncccd], last), Entries(p[i..], esz)) == whole
        decreases |p| - i
      {
        InfoAt(InfoScan(cccdTmp[..ncccd], last), p, i, esz);
        var h := Rd16(p, i);
        last := h;
        if fmt == 1 {
          var uuid := Rd16(p, i + 2);
          if uuid == CCCD && ncccd < MAX_CCCDS {
            AddCccd(h);
          }
        }
        i := i + esz;
      }
      EntriesAt(p, i, esz);
    }

    method OnFindInfoRsp(p: Octets)
      requires Valid()
      modifies this, rep, cccdTmp
      ensures Valid() && View() == OnInfo(old(View()), p)
    {
      if |p| < 2 {
        return;
      }
      var last: int := ScanInfoRsp(p);
      if last != 0 && last < hidEnd {
        state := Desc;
        AttSend(InfoReq(last + 1, hidEnd));
        return;
      }
      AssignCccds();
      BeginEnable();
    }

    method AddCccd(h: u16)
      requires Valid() && ncccd < MAX_CCCDS
      modifies this`ncccd, cccdTmp
      ensures Valid() && View() == old(View()).(cccds := old(cccdTmp[..ncccd]) + [h])
    {
      cccdTmp[ncccd] := h;
      ncccd := ncccd + 1;
      assert cccdTmp[..ncccd] == old(cccdTmp[..ncccd]) + [h];
    }

    method AssignCccds()
      requires Valid()
      modifies rep
      ensures Valid()
      ensures View() == old(View()).(reports := MapCccds(old(rep[..nrep]), cccdTmp[..ncccd]))
    {
      ghost var whole := MapCccds(rep[..nrep], cccdTmp[..ncccd]);
      assert cccdTmp[..ncccd][0..] == cccdTmp[..ncccd];
      for c := 0 to ncccd
        invariant MapCccds(rep[..nrep], cccdTmp[..ncccd][c..]) == whole
      {
        var ch := cccdTmp[c];
        var best, bestVal: u16 := -1, 0;
        for r := 0 to nrep
          invariant best == Owner(rep[..r], ch)
          invariant bestVal == if best < 0 then 0 else rep[best].val
        {
          assert rep[..r + 1][..r] == rep[..r];
          if rep[r].val < ch && rep[r].val >= bestVal {
            best, bestVal := r, rep[r].val;
          }
        }
        assert cccdTmp[..ncccd][c..][1..] == cccdTmp[..ncccd][c + 1..];
        ghost var before := rep[..nrep];
        if best >= 0 && rep[best].cccd == 0 {
          rep[best] := rep[best].(cccd := ch);
          assert rep[..nrep] == before[best := before[best].(cccd := ch)];
        }
      }
    }

    method BeginEnable()
      requires Valid()
      modifies this
      ensures Valid() && View() == StartEnable(old(View()))
    {
      state := Enable;
      enableIdx := -1;
      var haveBoot := false;
      for r := 0 to nrep
        invariant haveBoot == HaveBoot(rep[..r])
      {
        assert rep[..r + 1] == rep[..r] + [rep[r]];
        if rep[r].isBoot {
          assert rep[..r + 1][r].isBoot;
          haveBoot := true;
        }
      }
      if protoMode != 0 {
        AttSend(WriteReq(protoMode, [if haveBoot then 0 else 1]));
      } else {
        enableIdx := 0;
        if nrep > 0 && rep[0].cccd != 0 {
          AttSend(WriteReq(rep[0].cccd, [1, 0]));
        } else {
          state := Ready;
        }
      }
    }

    method AdvanceEnable()
      requires Valid()
      modifies this
      ensures Valid() && View() == EnableNext(old(View()))
    {
      if enableIdx < nrep {
        ghost var first := enableIdx + 1;
        for r := enableIdx + 1 to nrep
          invariant NextWithCccd(rep[..nrep], first) == NextWithCccd(rep[..nrep], r)
          invariant View() == old(View())
        {
          if rep[r].cccd != 0 {
            enableIdx := r;
            AttSend(WriteReq(rep[r].cccd, [1, 0]));
            return;
          }
        }
      }
      state := Ready;
      attached := true;
    }

    method OnErrorRsp(p: Octets)
      requires Valid()
      modifies this, rep
      ensures Valid() && View() == OnError(old(View()), p)
    {
      if |p| < 5 {
        return;
      }
      var err := p[4];
      if err == NOT_FOUND {
        if state == Svc {
          if hidStart != 0 {
            nrep := 0;
            state := Char;
            AttSend(TypeReq(hidStart, hidEnd));
          } else {
            state := Failed;
          }
        } else if state == Char {
          ncccd := 0;
          state := Desc;
          AttSend(InfoReq(hidStart, hidEnd));
        } else if state == Desc {
          AssignCccds();
          BeginEnable();
        }
        return;
      }
      if err == INSUFFICIENT_AUTHENTICATION || err == INSUFFICIENT_ENCRYPTION {
        if !pairingKicked {
          pairingKicked := true;
          pairings := pairings + 1;
        }
        return;
      }
      state := Failed;
    }

    method AttInput(p: Octets)
      requires Valid() && Readable(p)
      modifies this, rep, cccdTmp
      ensures Valid() && View() == Input(old(View()), p)
    {
      var op := p[0];
      if op == MTU_RSP {
        if |p| >= 3 {
          var peer := Rd16(p, 1);
          mtu := if peer < 247 then peer else 247;
        }
        state := Svc;
        AttSend(GroupReq(1));
      } else if op == GROUP_RSP {
        OnGroupRsp(p);
      } else if op == TYPE_RSP {
        OnTypeRsp(p);
      } else if op == INFO_RSP {
        OnFindInfoRsp(p);
      } else if op == WRITE_RSP {
        if state == Enable {
          AdvanceEnable();
        }
      } else if op == ERROR_RSP {
        OnErrorRsp(p);
      } else if op != NOTIFICATION && NeedsRefusal(op) {
        replies := replies + [Refusal(p)];
      }
    }

    method EncryptEvent(enabled: bool)
      requires Valid()
      modifies this
      ensures Valid() && View() == Encrypted(old(View()), enabled)
    {
      if enabled && (state == Enable || state == Failed) {
        pairingKicked := false;
        BeginEnable();
      }
    }
  }
}
