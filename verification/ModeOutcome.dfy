/** The status each request ends with, in the numbers the loader and the kernel share. */
module ModeOutcome {
  import opened Bytes
  import opened ModeLine
  import opened ModeSelect

  /** A mode with these answers cannot be used: not described, without a framebuffer (format 3), or of no size. */
  predicate Rejected(q: Option<Info>) {
    q.Some? ==> q.value.format == 3 || q.value.width == 0 || q.value.height == 0
  }

  /** The search asks mode m in query c + m. */
  predicate Matches(fw: Firmware, c: nat, w: nat, h: nat, m: nat) {
    var q := fw.queryMode(c + m, m);
    q.Some? && q.value.width == w && q.value.height == h && q.value.format != 3
  }

  /** The request names mode t, and `call` queries have been made by then. */
  ghost predicate Targets(fw: Firmware, c: nat, text: string, t: nat, call: nat) {
    && t < fw.maxMode
    && match ParseLine(text)
       case Unparsed => false
       case Index(i) => t == i && call == c
       case Size(w, h) =>
         Matches(fw, c, w, h, t) && (forall m: nat | m < t :: !Matches(fw, c, w, h, m)) && call == c + fw.maxMode
  }

  ghost predicate NoTarget(fw: Firmware, c: nat, text: string) {
    match ParseLine(text)
    case Unparsed => true
    case Index(i) => i >= fw.maxMode
    case Size(w, h) => forall m: nat | m < fw.maxMode :: !Matches(fw, c, w, h, m)
  }

  /** Every readable request has a target or has none. */
  lemma TargetOrNone(fw: Firmware, c: nat, text: string)
    requires fw.Valid()
    ensures NoTarget(fw, c, text) <==> !exists t: nat, call: nat :: Targets(fw, c, text, t, call)
  {
    var r := ParseLine(text);
    if r.Index? && r.index < fw.maxMode {
      assert Targets(fw, c, text, r.index, c);
    }
    if r.Size? && !NoTarget(fw, c, text) {
      SearchFinds(fw, c, r.width, r.height);
      assert Targets(fw, c, text, FirstLinear(fw, c, r.width, r.height, 0), c + fw.maxMode);
    }
  }

  lemma SearchFinds(fw: Firmware, c: nat, w: nat, h: nat)
    requires fw.Valid()
    ensures var t := FirstLinear(fw, c, w, h, 0);
            if t == 0xFFFF_FFFF then forall m: nat | m < fw.maxMode :: !Matches(fw, c, w, h, m)
            else t < fw.maxMode && Matches(fw, c, w, h, t) && forall m: nat | m < t :: !Matches(fw, c, w, h, m)
  {
    FirstLinearIs(fw, c, w, h, 0);
    forall m: nat
      ensures Matches(fw, c, w, h, m) <==> Linear(Swept(fw, c, m), w, h)
    {
    }
  }

  /** 0 without a file, 5 for one that cannot be read or is empty, and nothing else gives these two. */
  lemma StatusOfFile(fw: Firmware, c: nat, d: Display, file: ModeFile)
    ensures var v := Select(fw, c, d, file);
            && (v.status == 0 <==> file.NoVolume? || file.Missing?)
            && (v.status == 5 <==> file.Unreadable? || (file.Contents? && file.text == []))
            && (v.status == 0 || v.status == 5 ==> v.display == d && v.current == d.mode)
  {
  }

  /** A text that cannot be parsed, an index out of range and a size nobody offers are refused with 2. */
  lemma RefusedWithoutTarget(fw: Firmware, c: nat, d: Display, text: string)
    requires fw.Valid() && text != [] && NoTarget(fw, c, text)
    ensures Select(fw, c, d, Contents(text)) == Verdict(2, d, d.mode)
  {
    var r := ParseLine(text);
    if r.Size? {
      SearchFinds(fw, c, r.width, r.height);
    }
  }

  lemma TargetIsJudged(fw: Firmware, c: nat, d: Display, text: string, t: nat, call: nat)
    requires fw.Valid() && text != [] && Targets(fw, c, text, t, call)
    ensures Select(fw, c, d, Contents(text)) == Judge(fw, call, d, t)
  {
    var r := ParseLine(text);
    if r.Size? {
      SearchFinds(fw, c, r.width, r.height);
      var s := FirstLinear(fw, c, r.width, r.height, 0);
      assert s < t || t < s || s == t;
    }
  }

  /**
   A target is refused with 2 when one more query rejects it, taken with 1 when it is on
   already, and otherwise set: 3 when that fails, 1 when it gives a framebuffer of some
   size, 4 when it does not and the mode it came from is set again.
   */
  lemma StatusOfTarget(fw: Firmware, c: nat, d: Display, text: string, t: nat, call: nat)
    requires fw.Valid() && text != [] && Targets(fw, c, text, t, call)
    ensures var v := Select(fw, c, d, Contents(text));
            var (ok, e) := fw.setMode(t, d);
            if Rejected(fw.queryMode(call, t)) then v == Verdict(2, d, d.mode)
            else if t == d.mode then v == Verdict(1, d, t)
            else if !ok then v == Verdict(3, e, d.mode)
            else if e.base != 0 && e.info.width > 0 && e.info.height > 0 && e.info.format != 3
            then v == Verdict(1, e, e.mode)
            else v.status == 4 && v.display == fw.setMode(d.mode, e).1 && v.current == v.display.mode
  {
    TargetIsJudged(fw, c, d, text, t, call);
  }

  /** The list left for the kernel: what each mode answered, bit 0 for the current one and bit 1 for no answer. */
  lemma ListIsTheSweep(fw: Firmware, c: nat, d: Display, file: ModeFile, m: nat)
    requires m < fw.maxMode
    ensures var b, q := BlobOf(fw, c, d, file), fw.queryMode(c + m, m);
            && b.magic == 0x4D4F_4445_4C53_5431 && b.count == |b.entries| == fw.maxMode && b.current == d.mode
            && b.entries[m].flags == (if q.None? then 2 else 0) + (if m == d.mode then 1 else 0)
            && (q.Some? ==> b.entries[m].width == q.value.width && b.entries[m].height == q.value.height
                            && b.entries[m].format == q.value.format)
            && (q.None? ==> b.entries[m].width == b.entries[m].height == b.entries[m].format == 0)
  {
  }

  /** Beside it stands the request, where all ones in the index means that none was named. */
  lemma ListHoldsRequest(fw: Firmware, c: nat, d: Display, text: string)
    requires text != []
    ensures var b := BlobOf(fw, c, d, Contents(text));
            match ParseLine(text)
            case Unparsed => b.reqW == 0 && b.reqH == 0 && b.reqIdx == 0xFFFF_FFFF
            case Size(w, h) => b.reqW == w && b.reqH == h && b.reqIdx == 0xFFFF_FFFF
            case Index(i) => b.reqW == 0 && b.reqH == 0 && b.reqIdx == i
  {
  }
}
