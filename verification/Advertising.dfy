/** What a device's advertising data makes of it, read off the structures and not off the parser. */
module Advertising {
  import opened Bytes
  import opened Discovery

  /** Both forms of the 16-bit service list can name a HID service, and an appearance in the HID category is one. */
  ghost predicate SaysHid(x: Structure) {
    || (x.kind in {0x02, 0x03} && exists k: nat :: 2 * k + 1 < |x.val| && Service(x.val, k) in {0x1812, 0x1124})
    || (x.kind == 0x19 && |x.val| >= 2 && 0x03C0 <= Rd16(x.val, 0) <= 0x03FF)
  }

  /** The k-th entry of a list of 16-bit services. */
  function Service(val: seq<byte>, k: nat): int
    requires 2 * k + 1 < |val|
  {
    Rd16(val, 2 * k)
  }

  lemma {:induction false} ListedServices(val: seq<byte>)
    ensures HasHidUuid(val) <==> exists k: nat :: 2 * k + 1 < |val| && Service(val, k) in {0x1812, 0x1124}
    decreases |val|
  {
    if |val| >= 2 {
      ListedServices(val[2..]);
      assert Service(val, 0) == Rd16(val, 0);
      forall k: nat | 2 * k + 1 < |val[2..]|
        ensures Service(val[2..], k) == Service(val, k + 1)
      {
      }
      if k: nat :| 2 * k + 1 < |val| && Service(val, k) in {0x1812, 0x1124} {
        if k > 0 {
          assert Service(val[2..], k - 1) == Service(val, k);
        }
      }
    }
  }

  lemma ApplyMakesHid(d: Dev, x: Structure)
    requires |d.name| == NAME_LEN
    ensures Apply(d, x.kind, x.val).isHid <==> d.isHid || SaysHid(x)
  {
    ListedServices(x.val);
    if x.kind == 0x19 && |x.val| >= 2 {
      var ap: int := Rd16(x.val, 0);
      assert ap / 0x40 == 0x0F <==> 0x03C0 <= ap <= 0x03FF;
    }
  }

  lemma {:induction false} AppliedHid(d: Dev, l: seq<Structure>)
    requires |d.name| == NAME_LEN
    ensures ApplyAll(d, l).isHid <==> d.isHid || exists i | 0 <= i < |l| :: SaysHid(l[i])
    decreases |l|
  {
    if l != [] {
      ApplyMakesHid(d, l[0]);
      AppliedHid(Apply(d, l[0].kind, l[0].val), l[1..]);
      forall i | 0 < i < |l|
        ensures l[i] == l[1..][i - 1]
      {
      }
      if i :| 0 <= i < |l| && SaysHid(l[i]) {
        if i > 0 {
          assert SaysHid(l[1..][i - 1]);
        }
      }
    }
  }

  /** Main theorem: a device is taken for HID exactly when it was one already or one of its structures says so. */
  lemma HidExactlyWhenAdvertised(d: Dev, l: seq<Structure>, zeros: seq<byte>)
    requires |d.name| == NAME_LEN && StructuresOk(l)
    requires forall i | 0 <= i < |zeros| :: zeros[i] == 0
    ensures ParseAdv(d, EncodeAdv(l) + zeros).isHid <==> d.isHid || exists i | 0 <= i < |l| :: SaysHid(l[i])
  {
    ParseInvertsEncode(d, l, zeros);
    AppliedHid(d, l);
  }

  predicate IsName(x: Structure) {
    x.kind == 0x08 || x.kind == 0x09
  }

  /** The name field starts with this name, cut to 31 bytes, and a terminator. */
  predicate Shows(name: seq<byte>, val: seq<byte>) {
    var n := Min(|val|, 31);
    |name| == 32 && name[..n] == val[..n] && name[n] == 0
  }

  lemma {:induction false} NameUnchanged(d: Dev, l: seq<Structure>)
    requires |d.name| == NAME_LEN && forall i | 0 <= i < |l| :: !IsName(l[i])
    ensures ApplyAll(d, l).name == d.name
    decreases |l|
  {
    if l != [] {
      assert !IsName(l[0]);
      NameUnchanged(Apply(d, l[0].kind, l[0].val), l[1..]);
    }
  }

  lemma {:induction false} AppliedName(d: Dev, l: seq<Structure>, i: nat)
    requires |d.name| == NAME_LEN && i < |l| && IsName(l[i]) && forall j | i < j < |l| :: !IsName(l[j])
    ensures Shows(ApplyAll(d, l).name, l[i].val)
    decreases |l|
  {
    var e := Apply(d, l[0].kind, l[0].val);
    if i == 0 {
      NameUnchanged(e, l[1..]);
    } else {
      AppliedName(e, l[1..], i - 1);
    }
  }

  /** Of several names the last one is kept. */
  lemma LastNameIsKept(d: Dev, l: seq<Structure>, zeros: seq<byte>, i: nat)
    requires |d.name| == NAME_LEN && StructuresOk(l) && forall k | 0 <= k < |zeros| :: zeros[k] == 0
    requires i < |l| && IsName(l[i]) && forall j | i < j < |l| :: !IsName(l[j])
    ensures Shows(ParseAdv(d, EncodeAdv(l) + zeros).name, l[i].val)
  {
    ParseInvertsEncode(d, l, zeros);
    AppliedName(d, l, i);
  }
}
