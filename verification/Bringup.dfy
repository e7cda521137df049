/**
 Controller bring-up: a chain of eleven commands, each sent when the one before it
 is answered, on top of the shared command queue and its credits.
 */
module Bringup {
  import opened Bytes
  import opened CommandQueue

  const RESET: u16 := 0x0C03
  const READ_BD_ADDR: u16 := 0x1009
  const READ_BUFFER_SIZE: u16 := 0x1005
  const SET_EVENT_MASK: u16 := 0x0C01
  const WRITE_SSP_MODE: u16 := 0x0C56
  const WRITE_CLASS_OF_DEV: u16 := 0x0C24
  const WRITE_LOCAL_NAME: u16 := 0x0C13
  const WRITE_SCAN_ENABLE: u16 := 0x0C1A
  const WRITE_LE_HOST_SUPPORT: u16 := 0x0C6D
  const LE_SET_EVENT_MASK: u16 := 0x2001
  const LE_READ_BUFFER_SIZE: u16 := 0x2002

  /** "MayteraOS" in 248 bytes, zero-filled. */
  function LocalName(): seq<byte> {
    [0x4D, 0x61, 0x79, 0x74, 0x65, 0x72, 0x61, 0x4F, 0x53] + seq(239, _ => 0)
  }

  datatype Engine = Engine(q: Queue, wait: u16, ready: bool, mtu: nat, addr: seq<byte>)

  const INITIAL := Engine(EMPTY, 0, false, 1021, [0, 0, 0, 0, 0, 0])

  /** `present` is whether a transport is registered when the event is handled. */
  datatype Event =
    | Complete(p: seq<byte>, present: bool)   // Command Complete parameters
    | Status(p: seq<byte>, present: bool)     // Command Status parameters
    | Command(opcode: u16, params: seq<byte>, present: bool)
    | Poll

  function BringupSend(accept: Transport, e: Engine, present: bool, opcode: u16, params: seq<byte>): Engine
    requires |params| < 0x100
  {
    e.(wait := opcode, q := Submit(accept, e.q, present, opcode, params).0)
  }

  /** Advance the chain when the awaited command is answered; ret[0] is the status byte. */
  function Advance(accept: Transport, e: Engine, present: bool, opcode: u16, ret: seq<byte>): Engine {
    if opcode != e.wait then e
    else if opcode == RESET then BringupSend(accept, e, present, READ_BD_ADDR, [])
    else if opcode == READ_BD_ADDR then
      BringupSend(accept, if |ret| >= 7 then e.(addr := ret[1..7]) else e, present, READ_BUFFER_SIZE, [])
    else if opcode == READ_BUFFER_SIZE then
      var mtu := if |ret| >= 3 && 27 <= Rd16(ret, 1) <= 1024 then Rd16(ret, 1) else e.mtu;
      BringupSend(accept, e.(mtu := mtu), present, SET_EVENT_MASK, seq(8, _ => 0xFF))
    else if opcode == SET_EVENT_MASK then BringupSend(accept, e, present, WRITE_SSP_MODE, [1])
    else if opcode == WRITE_SSP_MODE then BringupSend(accept, e, present, WRITE_CLASS_OF_DEV, [0x04, 0x01, 0x00])
    else if opcode == WRITE_CLASS_OF_DEV then BringupSend(accept, e, present, WRITE_LOCAL_NAME, LocalName())
    else if opcode == WRITE_LOCAL_NAME then BringupSend(accept, e, present, WRITE_SCAN_ENABLE, [0x03])
    else if opcode == WRITE_SCAN_ENABLE then BringupSend(accept, e, present, WRITE_LE_HOST_SUPPORT, [0x01, 0x00])
    else if opcode == WRITE_LE_HOST_SUPPORT then
      BringupSend(accept, e, present, LE_SET_EVENT_MASK, [0x1F, 0, 0, 0, 0, 0, 0, 0])
    else if opcode == LE_SET_EVENT_MASK then BringupSend(accept, e, present, LE_READ_BUFFER_SIZE, [])
    else if opcode == LE_READ_BUFFER_SIZE then e.(wait := 0, ready := true)
    else e
  }

  function OnComplete(accept: Transport, e: Engine, p: seq<byte>, present: bool): Engine {
    if |p| < 3 then e
    else
      var granted := e.(q := Grant(e.q, p[0]));
      var opcode := Rd16(p, 1);
      var moved := if opcode != 0 then Advance(accept, granted, present, opcode, p[3..]) else granted;
      moved.(q := Pump(accept, moved.q))
  }

  function OnStatus(accept: Transport, e: Engine, p: seq<byte>, present: bool): Engine {
    if |p| < 4 then e
    else
      var granted := e.(q := Grant(e.q, p[1]));
      var opcode := Rd16(p, 2);
      var moved := if p[0] != 0 && opcode == e.wait then Advance(accept, granted, present, opcode, []) else granted;
      moved.(q := Pump(accept, moved.q))
  }

  function Step(accept: Transport, e: Engine, ev: Event): Engine {
    match ev
    case Complete(p, present) => OnComplete(accept, e, p, present)
    case Status(p, present) => OnStatus(accept, e, p, present)
    case Command(opcode, params, present) =>
      if |params| < 0x100 then e.(q := Submit(accept, e.q, present, opcode, params).0) else e
    case Poll => e.(q := Pump(accept, e.q))
  }

  function Start(accept: Transport, e: Engine, present: bool): Engine {
    if !present then e
    else BringupSend(accept, e.(q := Grant(e.q, 1), ready := false), present, RESET, [])
  }

  function Run(accept: Transport, e: Engine, evs: seq<Event>): Engine {
    if evs == [] then e else Step(accept, Run(accept, e, evs[..|evs| - 1]), evs[|evs| - 1])
  }

  // ---------------------------------------------------------------------------
  // The engine as the kernel runs it
  // ---------------------------------------------------------------------------

  class Hci {
    const ring: Ring
    var wait: u16
    var ready: bool
    var mtu: nat
    var addr: seq<byte>

    ghost predicate Valid()
      reads this, ring, ring.cmdq
    {
      ring.Valid()
    }

    ghost function View(): Engine
      requires Valid()
      reads this, ring, ring.cmdq
    {
      Engine(ring.View(), wait, ready, mtu, addr)
    }

    constructor (ring: Ring)
      requires ring.Valid()
      ensures this.ring == ring && Valid() && View() == INITIAL.(q := ring.View())
    {
      this.ring := ring;
      wait, ready, mtu, addr := 0, false, INITIAL.mtu, INITIAL.addr;
    }

    method SendNext(accept: Transport, present: bool, opcode: u16, params: seq<byte>)
      requires Valid() && |params| < 0x100
      modifies this, ring, ring.cmdq
      ensures Valid() && View() == BringupSend(accept, old(View()), present, opcode, params)
    {
      wait := opcode;
      var _ := ring.SendCmd(accept, present, opcode, params);
    }

    method AdvanceChain(accept: Transport, present: bool, opcode: u16, ret: seq<byte>)
      requires Valid()
      modifies this, ring, ring.cmdq
      ensures Valid() && View() == Advance(accept, old(View()), present, opcode, ret)
    {
      if opcode != wait {
        return;
      }
      if opcode == RESET {
        SendNext(accept, present, READ_BD_ADDR, []);
      } else if opcode == READ_BD_ADDR {
        if |ret| >= 7 {
          addr := ret[1..7];
        }
        SendNext(accept, present, READ_BUFFER_SIZE, []);
      } else if opcode == READ_BUFFER_SIZE {
        if |ret| >= 3 {
          var size := Rd16(ret, 1);
          if size >= 27 && size <= 1024 {
            mtu := size;
          }
        }
        SendNext(accept, present, SET_EVENT_MASK, seq(8, _ => 0xFF));
      } else if opcode == SET_EVENT_MASK {
        SendNext(accept, present, WRITE_SSP_MODE, [1]);
      } else if opcode == WRITE_SSP_MODE {
        SendNext(accept, present, WRITE_CLASS_OF_DEV, [0x04, 0x01, 0x00]);
      } else if opcode == WRITE_CLASS_OF_DEV {
        SendNext(accept, present, WRITE_LOCAL_NAME, LocalName());
      } else if opcode == WRITE_LOCAL_NAME {
        SendNext(accept, present, WRITE_SCAN_ENABLE, [0x03]);
      } else if opcode == WRITE_SCAN_ENABLE {
        SendNext(accept, present, WRITE_LE_HOST_SUPPORT, [0x01, 0x00]);
      } else if opcode == WRITE_LE_HOST_SUPPORT {
        SendNext(accept, present, LE_SET_EVENT_MASK, [0x1F, 0, 0, 0, 0, 0, 0, 0]);
      } else if opcode == LE_SET_EVENT_MASK {
        SendNext(accept, present, LE_READ_BUFFER_SIZE, []);
      } else if opcode == LE_READ_BUFFER_SIZE {
        wait := 0;
        ready := true;
      }
    }

    method CmdComplete(accept: Transport, p: seq<byte>, present: bool)
      requires Valid()
      modifies this, ring, ring.cmdq
      ensures Valid() && View() == OnComplete(accept, old(View()), p, present)
    {
      if |p| < 3 {
        return;
      }
      ring.Report(p[0]);
      var opcode := Rd16(p, 1);
      if opcode != 0 {
        AdvanceChain(accept, present, opcode, p[3..]);
      }
      ring.Drain(accept);
    }

    method CmdStatus(accept: Transport, p: seq<byte>, present: bool)
      requires Valid()
      modifies this, ring, ring.cmdq
      ensures Valid() && View() == OnStatus(accept, old(View()), p, present)
    {
      if |p| < 4 {
        return;
      }
      ring.Report(p[1]);
      var opcode := Rd16(p, 2);
      if p[0] != 0 && opcode == wait {
        AdvanceChain(accept, present, opcode, []);
      }
      ring.Drain(accept);
    }

    method StartBringup(accept: Transport, present: bool)
      requires Valid()
      modifies this, ring, ring.cmdq
      ensures Valid() && View() == Start(accept, old(View()), present)
    {
      if !present {
        return;
      }
      ring.Report(1);
      ready := false;
      wait := 0;
      SendNext(accept, present, RESET, []);
    }
  }
}
