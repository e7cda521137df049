/**
 Choosing the display mode in the loader: the modes the firmware offers are listed in
 a blob for the kernel, and the request in the mode file is judged, applied and undone.
 The firmware is an oracle: its answer to a mode query may depend on when it is asked,
 and setting a mode yields a success flag and whatever display results.
 */
module ModeSelect {
  import opened Bytes
  import opened ModeLine

  const NONE := 0
  const APPLIED := 1
  const REFUSED := 2
  const SETFAILED := 3
  const REVERTED := 4
  const READERR := 5

  const NO_TARGET := 0xFFFF_FFFF
  const LIST_MAX := 512
  const LIST_MAGIC := 0x4D4F_4445_4C53_5431
  const BLT_ONLY := 3
  const F_CURRENT := 1
  const F_QUERYFAIL := 2

  datatype Info = Info(width: nat, height: nat, format: nat)

  datatype Display = Display(mode: nat, info: Info, base: nat)

  /** `queryMode(c, m)` answers the c-th query, which is for mode m; `setMode(m, d)` sets mode m on display d. */
  datatype Firmware = Firmware(
    maxMode: nat,
    queryMode: (nat, nat) -> Option<Info>,
    setMode: (nat, Display) -> (bool, Display))
  {
    /** Mode numbers are 32-bit, so the largest one never means "no target". */
    predicate Valid() {
      maxMode <= NO_TARGET
    }
  }

  /** What reading the mode file gave. */
  datatype ModeFile = NoVolume | Missing | Unreadable | Contents(text: string)

  /** The linear framebuffer and the size the kernel needs. */
  predicate Usable(d: Display) {
    d.base != 0 && d.info.width != 0 && d.info.height != 0 && d.info.format != BLT_ONLY
  }

  predicate Linear(q: Option<Info>, w: nat, h: nat) {
    q.Some? && q.value.width == w && q.value.height == h && q.value.format != BLT_ONLY
  }

  // ---------------------------------------------------------------------------
  // The decision, as values
  // ---------------------------------------------------------------------------

  /** The answer for mode m in a sweep over all modes that starts with the c-th query. */
  function Swept(fw: Firmware, c: nat, m: nat): Option<Info> {
    fw.queryMode(c + m, m)
  }

  /** The first mode from m on with the size and a linear framebuffer; queries count from c. */
  function FirstLinear(fw: Firmware, c: nat, w: nat, h: nat, m: nat): nat
    requires m <= fw.maxMode
    decreases fw.maxMode - m
  {
    if m == fw.maxMode then NO_TARGET
    else if Linear(Swept(fw, c, m), w, h) then m
    else FirstLinear(fw, c, w, h, m + 1)
  }

  datatype Verdict = Verdict(status: nat, display: Display, current: nat)

  /** Sets a mode that passed every check, and goes back when the result is unusable. */
  function Apply(fw: Firmware, d: Display, target: nat): Verdict {
    var (ok, d1) := fw.setMode(target, d);
    if !ok then Verdict(SETFAILED, d1, d.mode)
    else if Usable(d1) then Verdict(APPLIED, d1, d1.mode)
    else
      var d2 := fw.setMode(d.mode, d1).1;
      Verdict(REVERTED, d2, d2.mode)
  }

  /** Judges a target by one more query, the c-th. */
  function Judge(fw: Firmware, c: nat, d: Display, target: nat): Verdict {
    var q := fw.queryMode(c, target);
    if q.None? || q.value.format == BLT_ONLY || q.value.width == 0 || q.value.height == 0
    then Verdict(REFUSED, d, d.mode)
    else if target == d.mode then Verdict(APPLIED, d, d.mode)
    else Apply(fw, d, target)
  }

  function Answer(fw: Firmware, c: nat, d: Display, r: Request): Verdict {
    match r
    case Unparsed => Verdict(REFUSED, d, d.mode)
    case Index(i) => if i >= fw.maxMode then Verdict(REFUSED, d, d.mode) else Judge(fw, c, d, i)
    case Size(w, h) =>
      var t := FirstLinear(fw, c, w, h, 0);
      if t == NO_TARGET then Verdict(REFUSED, d, d.mode) else Judge(fw, c + fw.maxMode, d, t)
  }

  /** The whole selection, after the modes have been listed with queries up to c. */
  function Select(fw: Firmware, c: nat, d: Display, file: ModeFile): Verdict {
    match file
    case NoVolume => Verdict(NONE, d, d.mode)
    case Missing => Verdict(NONE, d, d.mode)
    case Unreadable => Verdict(READERR, d, d.mode)
    case Contents(text) =>
      if text == [] then Verdict(READERR, d, d.mode) else Answer(fw, c, d, ParseLine(text))
  }

  // ---------------------------------------------------------------------------
  // Safety
  // ---------------------------------------------------------------------------

  /** A failed set changes nothing. */
  ghost predicate Harmless(fw: Firmware) {
    forall m, d :: !fw.setMode(m, d).0 ==> fw.setMode(m, d).1 == d
  }

  /** The firmware's own mode can be set again from anywhere. */
  ghost predicate CanRestore(fw: Firmware, mode: nat) {
    forall d :: fw.setMode(mode, d).1.mode == mode
  }

  /** The target that is actually set, if the request gets that far. */
  function Attempt(fw: Firmware, c: nat, d: Display, r: Request): Option<nat> {
    var t := if r.Index? then r.index else if r.Size? then FirstLinear(fw, c, r.width, r.height, 0) else NO_TARGET;
    var call := if r.Size? then c + fw.maxMode else c;
    if t >= fw.maxMode || t == d.mode then None
    else
      var q := fw.queryMode(call, t);
      if q.None? || q.value.format == BLT_ONLY || q.value.width == 0 || q.value.height == 0 then None else Some(t)
  }

  /** The recorded mode is in effect, and it is the firmware's own unless the request was applied and is usable. */
  predicate Safe(d: Display, v: Verdict) {
    && v.current == v.display.mode
    && (v.display.mode != d.mode ==> v.status == APPLIED && Usable(v.display))
  }

  /** A failed set leaves the mode alone, and an unusable result can be undone. */
  predicate Behaves(fw: Firmware, d: Display, target: nat) {
    var (ok, d1) := fw.setMode(target, d);
    && (!ok ==> d1.mode == d.mode)
    && (ok && !Usable(d1) ==> fw.setMode(d.mode, d1).1.mode == d.mode)
  }

  lemma ApplyIsSafeExactlyWhen(fw: Firmware, d: Display, target: nat)
    ensures Safe(d, Apply(fw, d, target)) <==> Behaves(fw, d, target)
  {
  }

  lemma NoAttemptKeepsDisplay(fw: Firmware, c: nat, d: Display, r: Request)
    requires fw.Valid()
    ensures Attempt(fw, c, d, r).None? ==> Answer(fw, c, d, r).display == d && Answer(fw, c, d, r).current == d.mode
    ensures Attempt(fw, c, d, r).Some? ==> Answer(fw, c, d, r) == Apply(fw, d, Attempt(fw, c, d, r).value)
  {
    if r.Size? {
      FirstLinearIs(fw, c, r.width, r.height, 0);
    }
  }

  /**
   Main theorem: for every firmware and every file the outcome is safe exactly when no
   mode was set, or the firmware behaved on the two sets that were tried.
   */
  lemma SafeExactlyWhen(fw: Firmware, c: nat, d: Display, file: ModeFile)
    requires fw.Valid()
    ensures Safe(d, Select(fw, c, d, file)) <==>
            var t := Attempt(fw, c, d, RequestOf(file)); (t.Some? ==> Behaves(fw, d, t.value))
  {
    var r := RequestOf(file);
    NoAttemptKeepsDisplay(fw, c, d, r);
    if Attempt(fw, c, d, r).Some? {
      ApplyIsSafeExactlyWhen(fw, d, Attempt(fw, c, d, r).value);
    }
  }

  /** So a firmware whose failed sets change nothing and that can restore its own mode is safe on every exit. */
  lemma SelectionIsSafe(fw: Firmware, c: nat, d: Display, file: ModeFile)
    requires fw.Valid() && Harmless(fw) && CanRestore(fw, d.mode)
    ensures Safe(d, Select(fw, c, d, file))
    ensures Select(fw, c, d, file).status in {NONE, REFUSED, SETFAILED, READERR} ==> Select(fw, c, d, file).display == d
  {
    var t := Attempt(fw, c, d, RequestOf(file));
    NoAttemptKeepsDisplay(fw, c, d, RequestOf(file));
    SafeExactlyWhen(fw, c, d, file);
    if t.Some? {
      var (_, d1) := fw.setMode(t.value, d);
      assert fw.setMode(d.mode, d1).1.mode == d.mode;
    }
  }

  // ---------------------------------------------------------------------------
  // What was asked for
  // ---------------------------------------------------------------------------

  lemma {:induction false} FirstLinearIs(fw: Firmware, c: nat, w: nat, h: nat, m: nat)
    requires m <= fw.maxMode
    ensures var t := FirstLinear(fw, c, w, h, m);
            && (t != NO_TARGET ==> m <= t < fw.maxMode && Linear(Swept(fw, c, t), w, h))
            && (t == NO_TARGET && fw.Valid() ==> forall k | m <= k < fw.maxMode :: !Linear(Swept(fw, c, k), w, h))
            && (t != NO_TARGET ==> forall k | m <= k < t :: !Linear(Swept(fw, c, k), w, h))
    decreases fw.maxMode - m
  {
    if m < fw.maxMode && !Linear(Swept(fw, c, m), w, h) {
      FirstLinearIs(fw, c, w, h, m + 1);
    }
  }

  /** The answer for a mode does not depend on when it is asked. */
  ghost predicate Stable(fw: Firmware) {
    forall a, b, m :: fw.queryMode(a, m) == fw.queryMode(b, m)
  }

  ghost predicate Offers(fw: Firmware, w: nat, h: nat) {
    exists m: nat | m < fw.maxMode :: Linear(Swept(fw, 0, m), w, h)
  }

  lemma ApplyNeverRefuses(fw: Firmware, d: Display, target: nat)
    ensures Apply(fw, d, target).status != REFUSED
  {
  }

  lemma JudgeTakesLinear(fw: Firmware, c: nat, d: Display, target: nat, w: nat, h: nat)
    requires Linear(fw.queryMode(c, target), w, h) && w > 0 && h > 0
    ensures Judge(fw, c, d, target).status != REFUSED
  {
    ApplyNeverRefuses(fw, d, target);
  }

  /** With stable answers a size is refused exactly when no mode has it with a linear framebuffer. */
  lemma RefusedExactlyWhenNotOffered(fw: Firmware, c: nat, d: Display, w: nat, h: nat)
    requires fw.Valid() && Stable(fw) && w > 0 && h > 0
    ensures Answer(fw, c, d, Size(w, h)).status == REFUSED <==> !Offers(fw, w, h)
  {
    var t := FirstLinear(fw, c, w, h, 0);
    FirstLinearIs(fw, c, w, h, 0);
    if t == NO_TARGET {
      forall m: nat | m < fw.maxMode
        ensures !Linear(Swept(fw, 0, m), w, h)
      {
        assert Swept(fw, 0, m) == Swept(fw, c, m);
      }
    } else {
      assert Swept(fw, 0, t) == Swept(fw, c, t) == fw.queryMode(c + fw.maxMode, t);
      JudgeTakesLinear(fw, c + fw.maxMode, d, t, w, h);
    }
  }

  // ---------------------------------------------------------------------------
  // The list for the kernel
  // ---------------------------------------------------------------------------

  datatype Entry = Entry(width: nat, height: nat, format: nat, flags: nat)

  predicate IsCurrent(e: Entry) {
    e.flags % 2 == 1
  }

  predicate QueryFailed(e: Entry) {
    e.flags / 2 % 2 == 1
  }

  function EntryOf(q: Option<Info>, current: bool): Entry {
    var f := if current then F_CURRENT else 0;
    if q.None? then Entry(0, 0, 0, F_QUERYFAIL + f)
    else Entry(q.value.width, q.value.height, q.value.format, f)
  }

  function Listing(fw: Firmware, c: nat, current: nat): seq<Entry> {
    seq(fw.maxMode, m requires 0 <= m < fw.maxMode => EntryOf(Swept(fw, c, m), m == current))
  }

  datatype Blob = Blob(
    magic: nat, count: nat, current: nat, reqW: nat, reqH: nat, reqIdx: nat, status: nat, entries: seq<Entry>)

  function RequestOf(file: ModeFile): Request {
    if file.Contents? && file.text != [] then ParseLine(file.text) else Unparsed
  }

  /** The list the kernel finds after the selection. */
  function BlobOf(fw: Firmware, c: nat, d: Display, file: ModeFile): Blob {
    var r := RequestOf(file);
    Blob(LIST_MAGIC, fw.maxMode, d.mode,
         if r.Size? then r.width else 0, if r.Size? then r.height else 0, if r.Index? then r.index else NO_TARGET,
         Select(fw, c + fw.maxMode, d, file).status, Listing(fw, c, d.mode))
  }
}
