/** The loader's mode selection as it runs: boot information and mode list updated in place. */
module ModeLoader {
  import opened Bytes
  import opened ModeLine
  import opened ModeSelect

  /** The firmware's graphics output: its display, and how many queries it has answered. */
  class Gop {
    const fw: Firmware
    var display: Display
    var calls: nat

    constructor (fw: Firmware, display: Display)
      ensures this.fw == fw && this.display == display && calls == 0
    {
      this.fw, this.display, calls := fw, display, 0;
    }

    method QueryMode(m: nat) returns (q: Option<Info>)
      modifies this`calls
      ensures q == fw.queryMode(old(calls), m) && calls == old(calls) + 1
    {
      q := fw.queryMode(calls, m);
      calls := calls + 1;
    }

    method SetMode(m: nat) returns (ok: bool)
      modifies this`display
      ensures (ok, display) == fw.setMode(m, old(display))
    {
      var (success, after) := fw.setMode(m, display);
      ok, display := success, after;
    }
  }

  /** The blob handed to the kernel. */
  class ModeList {
    const magic: nat
    const count: nat
    const current: nat
    var reqW: nat
    var reqH: nat
    var reqIdx: nat
    var status: nat
    const entries: array<Entry>

    constructor (count: nat, current: nat)
      ensures fresh(entries) && entries.Length == count
      ensures this.count == count && this.current == current && magic == LIST_MAGIC
      ensures reqW == 0 && reqH == 0 && reqIdx == NO_TARGET && status == NONE
    {
      this.magic, this.count, this.current := LIST_MAGIC, count, current;
      reqW, reqH, reqIdx, status := 0, 0, NO_TARGET, NONE;
      entries := new Entry[count](_ => Entry(0, 0, 0, 0));
    }

    function Value(): Blob
      reads this, entries
    {
      Blob(magic, count, current, reqW, reqH, reqIdx, status, entries[..])
    }
  }

  class BootInfo {
    var modeCount: nat
    var modeCurrent: nat
    var modeStatus: nat
    var modeList: ModeList?
    var modeListTag: nat

    /** The only writer of either copy of the status. */
    method RecordStatus(ml: ModeList?, st: nat)
      modifies this`modeStatus, (if ml == null then {} else {ml})`status
      ensures modeStatus == st && (ml != null ==> ml.status == st)
    {
      modeStatus := st;
      if ml != null {
        ml.status := st;
      }
    }

    /** Lists every mode into the blob, if there is one. */
    method Enumerate(gop: Gop, ml: ModeList?, current: nat)
      requires ml != null ==> ml.entries.Length == gop.fw.maxMode
      modifies gop`calls, if ml != null then {ml.entries} else {}
      ensures gop.calls == old(gop.calls) + gop.fw.maxMode
      ensures ml != null ==> ml.entries[..] == Listing(gop.fw, old(gop.calls), current)
    {
      var m: nat := 0;
      while m < gop.fw.maxMode
        invariant m <= gop.fw.maxMode && gop.calls == old(gop.calls) + m
        invariant ml != null ==> ml.entries[..m] == Listing(gop.fw, old(gop.calls), current)[..m]
      {
        var q := gop.QueryMode(m);
        if ml != null {
          var f := if m == current then F_CURRENT else 0;
          if q.None? {
            ml.entries[m] := Entry(0, 0, 0, F_QUERYFAIL + f);
          } else {
            ml.entries[m] := Entry(q.value.width, q.value.height, q.value.format, f);
          }
        }
        m := m + 1;
      }
    }

    /** The search for a size: the first match with a linear framebuffer. */
    method Search(gop: Gop, w: nat, h: nat) returns (target: nat)
      requires gop.fw.Valid()
      modifies gop`calls
      ensures gop.calls == old(gop.calls) + gop.fw.maxMode
      ensures target == FirstLinear(gop.fw, old(gop.calls), w, h, 0)
    {
      target := NO_TARGET;
      var m: nat := 0;
      while m < gop.fw.maxMode
        invariant m <= gop.fw.maxMode && gop.calls == old(gop.calls) + m
        invariant FirstLinear(gop.fw, old(gop.calls), w, h, 0) ==
                  if target == NO_TARGET then FirstLinear(gop.fw, old(gop.calls), w, h, m) else target
      {
        var q := gop.QueryMode(m);
        if q.Some? && q.value.width == w && q.value.height == h {
          if q.value.format != BLT_ONLY && target == NO_TARGET {
            target := m;
          }
        }
        m := m + 1;
      }
    }

    /** Verifies the target, sets it, and goes back if the display it gives is unusable. */
    method Commit(gop: Gop, ml: ModeList?, target: nat)
      requires modeCurrent == gop.display.mode
      modifies gop, this`modeStatus, this`modeCurrent, (if ml == null then {} else {ml})`status
      ensures Verdict(modeStatus, gop.display, modeCurrent) == Judge(gop.fw, old(gop.calls), old(gop.display), target)
      ensures ml != null ==> ml.status == modeStatus
    {
      var current := gop.display.mode;
      var q := gop.QueryMode(target);
      if q.None? || q.value.format == BLT_ONLY || q.value.width == 0 || q.value.height == 0 {
        RecordStatus(ml, REFUSED);
        return;
      }
      if target == current {
        RecordStatus(ml, APPLIED);
        return;
      }
      var ok := gop.SetMode(target);
      if !ok {
        RecordStatus(ml, SETFAILED);
        return;
      }
      if gop.display.base == 0 || gop.display.info.width == 0 || gop.display.info.height == 0
         || gop.display.info.format == BLT_ONLY
      {
        var _ := gop.SetMode(current);
        RecordStatus(ml, REVERTED);
        modeCurrent := gop.display.mode;
        return;
      }
      RecordStatus(ml, APPLIED);
      modeCurrent := gop.display.mode;
    }

    /** Judges the parsed request. */
    method Decide(gop: Gop, ml: ModeList?, r: Request)
      requires gop.fw.Valid() && modeCurrent == gop.display.mode
      modifies gop, this`modeStatus, this`modeCurrent, (if ml == null then {} else {ml})`status
      ensures Verdict(modeStatus, gop.display, modeCurrent) == Answer(gop.fw, old(gop.calls), old(gop.display), r)
      ensures ml != null ==> ml.status == modeStatus
    {
      var target := NO_TARGET;
      match r {
        case Unparsed =>
          RecordStatus(ml, REFUSED);
          return;
        case Index(i) =>
          if i >= gop.fw.maxMode {
            RecordStatus(ml, REFUSED);
            return;
          }
          target := i;
        case Size(w, h) =>
          target := Search(gop, w, h);
          if target == NO_TARGET {
            RecordStatus(ml, REFUSED);
            return;
          }
      }
      Commit(gop, ml, target);
    }

    /**
     The whole selection. `granted` is whether the pool allocation of the blob succeeds.
     Both copies of the status agree on every exit.
     */
    method SelectMode(gop: Gop, file: ModeFile, granted: bool)
      requires gop.fw.Valid()
      modifies this, gop
      ensures Verdict(modeStatus, gop.display, modeCurrent)
              == Select(gop.fw, old(gop.calls) + gop.fw.maxMode, old(gop.display), file)
      ensures modeCount == gop.fw.maxMode
      ensures 0 < gop.fw.maxMode <= 512 && granted ==>
                && modeList != null && fresh(modeList) && modeListTag == LIST_MAGIC
                && modeList.Value() == BlobOf(gop.fw, old(gop.calls), old(gop.display), file)
                && modeList.status == modeStatus
      ensures !(0 < gop.fw.maxMode <= 512 && granted) ==>
                modeList == old(modeList) && modeListTag == old(modeListTag)
    {
      var ml := ListModes(gop, granted);
      Obey(gop, ml, file);
    }

    /** The listing, before any request is read. */
    method ListModes(gop: Gop, granted: bool) returns (ml: ModeList?)
      modifies this, gop`calls
      ensures gop.calls == old(gop.calls) + gop.fw.maxMode
      ensures modeCount == gop.fw.maxMode && modeCurrent == gop.display.mode && modeStatus == NONE
      ensures ml != null <==> 0 < gop.fw.maxMode <= LIST_MAX && granted
      ensures ml != null ==>
                && fresh(ml) && fresh(ml.entries) && modeList == ml && modeListTag == LIST_MAGIC
                && ml.Value() == Blob(LIST_MAGIC, gop.fw.maxMode, gop.display.mode, 0, 0, NO_TARGET, NONE,
                                      Listing(gop.fw, old(gop.calls), gop.display.mode))
      ensures ml == null ==> modeList == old(modeList) && modeListTag == old(modeListTag)
    {
      ml := null;
      if 0 < gop.fw.maxMode <= LIST_MAX && granted {
        ml := new ModeList(gop.fw.maxMode, gop.display.mode);
      }
      modeCount, modeCurrent := gop.fw.maxMode, gop.display.mode;
      RecordStatus(ml, NONE);
      Enumerate(gop, ml, gop.display.mode);
      if ml != null {
        modeList, modeListTag := ml, LIST_MAGIC;
      }
    }

    /** The request: recorded in the blob before it is judged. */
    method Obey(gop: Gop, ml: ModeList?, file: ModeFile)
      requires gop.fw.Valid() && modeCurrent == gop.display.mode && modeStatus == NONE
      requires ml != null ==> ml.status == NONE && ml.reqW == 0 && ml.reqH == 0 && ml.reqIdx == NO_TARGET
      modifies gop, this`modeStatus, this`modeCurrent, if ml == null then {} else {ml}
      ensures Verdict(modeStatus, gop.display, modeCurrent) == Select(gop.fw, old(gop.calls), old(gop.display), file)
      ensures ml != null ==>
                var r := RequestOf(file);
                && ml.status == modeStatus
                && ml.reqW == (if r.Size? then r.width else 0) && ml.reqH == (if r.Size? then r.height else 0)
                && ml.reqIdx == (if r.Index? then r.index else NO_TARGET)
    {
      match file {
        case NoVolume =>
        case Missing =>
        case Unreadable => RecordStatus(ml, READERR);
        case Contents(text) =>
          if text == [] {
            RecordStatus(ml, READERR);
          } else {
            var r := ModeselParse(text);
            if ml != null {
              ml.reqW := if r.Size? then r.width else 0;
              ml.reqH := if r.Size? then r.height else 0;
              ml.reqIdx := if r.Index? then r.index else NO_TARGET;
            }
            Decide(gop, ml, r);
          }
      }
    }
  }
}
