/**
 The heartbeat's top three CPU consumers. One pass shifts candidates into three
 slots; the result is the first three of a stable sort by tick delta.
 */
module TopConsumers {
  import opened Bytes

  const SLOTS := 3
  const MAX_ROWS := 96

  datatype Row = Row(pid: int, ticks: nat, idle: bool)

  /** A candidate: its row in the snapshot and the ticks it used since the last one. */
  datatype Entry = Entry(idx: nat, delta: nat)

  /** Ticks since the first row with the same pid in the previous snapshot; a counter that went back counts zero. */
  function Delta(prev: seq<Row>, r: Row): Option<nat> {
    if prev == [] then None
    else if prev[0].pid == r.pid then Some(if r.ticks >= prev[0].ticks then r.ticks - prev[0].ticks else 0)
    else Delta(prev[1..], r)
  }

  predicate IsCandidate(prev: seq<Row>, r: Row) {
    !r.idle && Delta(prev, r).Some? && Delta(prev, r).value > 0
  }

  /** The matched, non-idle rows that used ticks, in snapshot order. */
  function Candidates(prev: seq<Row>, cur: seq<Row>): seq<Entry> {
    if cur == [] then []
    else
      var n := |cur| - 1;
      Candidates(prev, cur[..n]) + if IsCandidate(prev, cur[n]) then [Entry(n, Delta(prev, cur[n]).value)] else []
  }

  // ---------------------------------------------------------------------------
  // The stable sort
  // ---------------------------------------------------------------------------

  /** Where an entry goes: after everything at least as large. */
  function Place(l: seq<Entry>, delta: nat): (p: nat)
    ensures p <= |l| && (p < |l| ==> delta > l[p].delta)
    ensures forall k | 0 <= k < p :: l[k].delta >= delta
  {
    if l == [] || delta > l[0].delta then 0 else 1 + Place(l[1..], delta)
  }

  function Insert(l: seq<Entry>, e: Entry): seq<Entry> {
    var p := Place(l, e.delta);
    l[..p] + [e] + l[p..]
  }

  function Sort(l: seq<Entry>): seq<Entry> {
    if l == [] then [] else Insert(Sort(l[..|l| - 1]), l[|l| - 1])
  }

  /** Larger deltas first, ties in snapshot order. */
  predicate Before(a: Entry, b: Entry) {
    a.delta > b.delta || (a.delta == b.delta && a.idx < b.idx)
  }

  predicate Ordered(l: seq<Entry>) {
    forall i, j | 0 <= i < j < |l| :: Before(l[i], l[j])
  }

  predicate Rising(l: seq<Entry>) {
    forall i, j | 0 <= i < j < |l| :: l[i].idx < l[j].idx
  }

  lemma {:induction false} CandidatesRise(prev: seq<Row>, cur: seq<Row>)
    ensures Rising(Candidates(prev, cur))
    ensures forall i | 0 <= i < |Candidates(prev, cur)| :: Candidates(prev, cur)[i].idx < |cur|
  {
    if cur != [] {
      CandidatesRise(prev, cur[..|cur| - 1]);
    }
  }

  lemma InsertKeepsElements(l: seq<Entry>, e: Entry)
    ensures multiset(Insert(l, e)) == multiset(l) + multiset{e}
  {
    var p := Place(l, e.delta);
    assert l == l[..p] + l[p..];
  }

  lemma InsertKeepsOrder(l: seq<Entry>, e: Entry)
    requires Ordered(l) && forall k | 0 <= k < |l| :: l[k].idx < e.idx
    ensures Ordered(Insert(l, e))
  {
    var p, r := Place(l, e.delta), Insert(l, e);
    forall i, j | 0 <= i < j < |r|
      ensures Before(r[i], r[j])
    {
      if i < p {
        assert r[i] == l[i];
        if j > p {
          assert r[j] == l[j - 1];
        } else if j < p {
          assert r[j] == l[j];
        }
      } else {
        assert r[j] == l[j - 1];
        assert i > p ==> r[i] == l[i - 1];
        assert j - 1 > p ==> Before(l[p], l[j - 1]);
      }
    }
  }

  lemma AllOlder(a: seq<Entry>, b: seq<Entry>, e: Entry)
    requires multiset(a) == multiset(b) && forall k | 0 <= k < |b| :: b[k].idx < e.idx
    ensures forall k | 0 <= k < |a| :: a[k].idx < e.idx
  {
    forall k | 0 <= k < |a|
      ensures a[k].idx < e.idx
    {
      assert a[k] in multiset(a);
      assert a[k] in b;
    }
  }

  /** The sort is a permutation, ordered by delta with ties kept in snapshot order. */
  lemma {:induction false} SortIsStable(l: seq<Entry>)
    requires Rising(l)
    ensures multiset(Sort(l)) == multiset(l) && Ordered(Sort(l))
  {
    if l != [] {
      var front, e := l[..|l| - 1], l[|l| - 1];
      SortIsStable(front);
      assert l == front + [e];
      InsertKeepsElements(Sort(front), e);
      forall m | 0 <= m < |front|
        ensures front[m].idx < e.idx
      {
        assert front[m] == l[m];
      }
      AllOlder(Sort(front), front, e);
      InsertKeepsOrder(Sort(front), e);
    }
  }

  // ---------------------------------------------------------------------------
  // Three slots
  // ---------------------------------------------------------------------------

  function Take3(l: seq<Entry>): seq<Entry> {
    if |l| <= SLOTS then l else l[..SLOTS]
  }

  function PlaceIn(l: seq<Entry>, e: Entry): seq<Entry> {
    Take3(Insert(l, e))
  }

  lemma {:induction false} PlaceOfPrefix(l: seq<Entry>, n: nat, delta: nat)
    requires n <= |l|
    ensures Place(l[..n], delta) == Min(Place(l, delta), n)
  {
    if n > 0 && delta <= l[0].delta {
      assert l[..n][1..] == l[1..][..n - 1];
      PlaceOfPrefix(l[1..], n - 1, delta);
    }
  }

  /** Forgetting all but the best three between insertions loses nothing. */
  lemma KeepingThreeIsEnough(l: seq<Entry>, e: Entry)
    ensures PlaceIn(Take3(l), e) == Take3(Insert(l, e))
  {
    if |l| > SLOTS {
      PlaceOfPrefix(l, SLOTS, e.delta);
    }
  }

  class Heartbeat {
    const prev: array<Row>
    var prevN: nat

    ghost predicate Valid()
      reads this
    {
      prev.Length == MAX_ROWS && prevN <= MAX_ROWS
    }

    ghost function Baseline(): seq<Row>
      requires Valid()
      reads this, prev
    {
      prev[..prevN]
    }

    constructor ()
      ensures Valid() && Baseline() == [] && fresh(prev)
    {
      prev := new Row[MAX_ROWS](_ => Row(0, 0, false));
      prevN := 0;
    }

    /** The inner loop: the first row of the previous snapshot with this pid. */
    method Match(r: Row) returns (found: bool, d: nat)
      requires Valid()
      ensures Delta(Baseline(), r) == if found then Some(d) else None
    {
      found, d := false, 0;
      assert prev[0..prevN] == prev[..prevN];
      for j := 0 to prevN
        invariant Delta(prev[j..prevN], r) == Delta(prev[..prevN], r) && d == 0
      {
        assert prev[j..prevN][1..] == prev[j + 1..prevN];
        if prev[j].pid == r.pid {
          if r.ticks >= prev[j].ticks {
            d := r.ticks - prev[j].ticks;
          }
          found := true;
          return;
        }
      }
    }

    /** The chosen rows, best first. */
    method Rank(cur: seq<Row>) returns (best: seq<int>, deltas: seq<nat>)
      requires Valid()
      ensures Holds(best, deltas, Take3(Sort(Candidates(Baseline(), cur))))
      ensures Leads(best, deltas, Baseline(), cur)
    {
      best, deltas := [-1, -1, -1], [0, 0, 0];
      ghost var slots: seq<Entry> := [];
      for i := 0 to |cur|
        invariant Holds(best, deltas, slots)
        invariant slots == Take3(Sort(Candidates(Baseline(), cur[..i])))
      {
        NextRow(Baseline(), cur, i);
        var found, d := Match(cur[i]);
        if found && !cur[i].idle {
          best, deltas := ShiftIn(best, deltas, i, d, slots);
        }
        slots := Take3(Sort(Candidates(Baseline(), cur[..i + 1])));
      }
      assert cur[..|cur|] == cur;
      TopThreeOfStableSort(Baseline(), cur, best, deltas);
    }

    /** One heartbeat: rank the snapshot against the last one, which it then replaces. */
    method Top(cur: seq<Row>) returns (best: seq<int>, deltas: seq<nat>)
      requires Valid() && |cur| <= MAX_ROWS
      modifies this`prevN, prev
      ensures Valid() && Baseline() == cur
      ensures Holds(best, deltas, Take3(Sort(Candidates(old(Baseline()), cur))))
      ensures Leads(best, deltas, old(Baseline()), cur)
    {
      best, deltas := Rank(cur);
      for i := 0 to |cur|
        invariant prev[..i] == cur[..i]
      {
        prev[i] := cur[i];
      }
      prevN := |cur|;
    }
  }

  /** What one more row does to the top three. */
  lemma NextRow(base: seq<Row>, cur: seq<Row>, i: nat)
    requires i < |cur|
    ensures var was, d := Take3(Sort(Candidates(base, cur[..i]))), Delta(base, cur[i]);
            Take3(Sort(Candidates(base, cur[..i + 1])))
            == if IsCandidate(base, cur[i]) then PlaceIn(was, Entry(i, d.value)) else was
  {
    assert cur[..i + 1][..i] == cur[..i];
    var was := Candidates(base, cur[..i]);
    if IsCandidate(base, cur[i]) {
      var e := Entry(i, Delta(base, cur[i]).value);
      assert (was + [e])[..|was + [e]| - 1] == was;
      KeepingThreeIsEnough(Sort(was), e);
    } else {
      assert was + [] == was;
    }
  }

  /** The three slots hold this list: unused ones are -1 with delta zero. */
  predicate Holds(best: seq<int>, deltas: seq<nat>, l: seq<Entry>) {
    && |best| == |deltas| == SLOTS && |l| <= SLOTS
    && (forall k | 0 <= k < |l| :: best[k] == l[k].idx && deltas[k] == l[k].delta > 0)
    && (forall k | |l| <= k < SLOTS :: best[k] == -1 && deltas[k] == 0)
  }

  /** Find the first slot with a smaller delta, shift the rest down, and store. */
  method ShiftIn(best: seq<int>, deltas: seq<nat>, i: nat, d: nat, ghost l: seq<Entry>)
    returns (b: seq<int>, ds: seq<nat>)
    requires Holds(best, deltas, l)
    ensures Holds(b, ds, if d > 0 then PlaceIn(l, Entry(i, d)) else l)
  {
    b, ds := best, deltas;
    for k := 0 to SLOTS
      invariant b == best && ds == deltas && forall j | 0 <= j < k :: d <= deltas[j]
    {
      if d > ds[k] {
        var m := SLOTS - 1;
        while m > k
          invariant k <= m < SLOTS && |b| == |ds| == SLOTS
          invariant forall j | 0 <= j <= m :: b[j] == best[j] && ds[j] == deltas[j]
          invariant forall j | m < j < SLOTS :: b[j] == best[j - 1] && ds[j] == deltas[j - 1]
        {
          b, ds := b[m := b[m - 1]], ds[m := ds[m - 1]];
          m := m - 1;
        }
        b, ds := b[k := i], ds[k := d];
        Shifted(best, deltas, b, ds, l, k, Entry(i, d));
        return;
      }
    }
    if d > 0 {
      NoSlot(best, deltas, l, Entry(i, d));
    }
  }

  lemma Shifted(best: seq<int>, deltas: seq<nat>, b: seq<int>, ds: seq<nat>, l: seq<Entry>, k: nat, e: Entry)
    requires Holds(best, deltas, l) && k < SLOTS && e.delta > deltas[k] && forall j | 0 <= j < k :: e.delta <= deltas[j]
    requires |b| == |ds| == SLOTS && b[k] == e.idx && ds[k] == e.delta
    requires forall j | 0 <= j < k :: b[j] == best[j] && ds[j] == deltas[j]
    requires forall j | k < j < SLOTS :: b[j] == best[j - 1] && ds[j] == deltas[j - 1]
    ensures Holds(b, ds, PlaceIn(l, e))
  {
    PlaceIsSlot(best, deltas, l, k, e.delta);
    ShiftedHolds(best, deltas, b, ds, l, k, e);
  }

  lemma PlaceIsSlot(best: seq<int>, deltas: seq<nat>, l: seq<Entry>, k: nat, d: nat)
    requires Holds(best, deltas, l) && k < SLOTS && d > deltas[k] && forall j | 0 <= j < k :: d <= deltas[j]
    ensures k <= |l| && Place(l, d) == k
  {
    assert |l| < SLOTS ==> deltas[|l|] == 0;
    var p := Place(l, d);
    assert p < |l| ==> deltas[p] == l[p].delta;
    assert k < |l| ==> deltas[k] == l[k].delta;
  }

  lemma ShiftedHolds(best: seq<int>, deltas: seq<nat>, b: seq<int>, ds: seq<nat>, l: seq<Entry>, k: nat, e: Entry)
    requires Holds(best, deltas, l) && k < SLOTS && k <= |l| && Place(l, e.delta) == k && e.delta > 0
    requires |b| == |ds| == SLOTS && b[k] == e.idx && ds[k] == e.delta
    requires forall j | 0 <= j < k :: b[j] == best[j] && ds[j] == deltas[j]
    requires forall j | k < j < SLOTS :: b[j] == best[j - 1] && ds[j] == deltas[j - 1]
    ensures Holds(b, ds, PlaceIn(l, e))
  {
    InsertedAt(l, e);
    var r := Insert(l, e);
    var t := PlaceIn(l, e);
    assert |t| == Min(|l| + 1, SLOTS);
    forall j | 0 <= j < |t|
      ensures b[j] == t[j].idx && ds[j] == t[j].delta > 0
    {
      assert t[j] == r[j];
    }
    forall j | |t| <= j < SLOTS
      ensures b[j] == -1 && ds[j] == 0
    {
      assert best[j - 1] == -1 && deltas[j - 1] == 0;
    }
  }

  lemma InsertedAt(l: seq<Entry>, e: Entry)
    ensures var r, k := Insert(l, e), Place(l, e.delta);
            |r| == |l| + 1 && forall j | 0 <= j < |r| :: r[j] == if j < k then l[j] else if j == k then e else l[j - 1]
  {
  }

  lemma NoSlot(best: seq<int>, deltas: seq<nat>, l: seq<Entry>, e: Entry)
    requires Holds(best, deltas, l) && e.delta > 0 && forall j | 0 <= j < SLOTS :: e.delta <= deltas[j]
    ensures PlaceIn(l, e) == l
  {
    assert e.delta <= deltas[SLOTS - 1];
    assert |l| == SLOTS;
    assert Place(l, e.delta) == SLOTS;
    assert (l[..SLOTS] + [e] + l[SLOTS..])[..SLOTS] == l;
  }

  // ---------------------------------------------------------------------------
  // The rows themselves
  // ---------------------------------------------------------------------------

  /** prev[j] is the first row of the last snapshot with this pid. */
  predicate FirstOf(prev: seq<Row>, pid: int, j: nat) {
    j < |prev| && prev[j].pid == pid && forall k | 0 <= k < j :: prev[k].pid != pid
  }

  /** Row i of the snapshot is not idle, is in the last snapshot, and has used d > 0 ticks since. */
  predicate Used(prev: seq<Row>, cur: seq<Row>, i: int, d: int) {
    && 0 <= i < |cur| && !cur[i].idle && d > 0
    && exists j | 0 <= j < |prev| :: FirstOf(prev, cur[i].pid, j) && d == cur[i].ticks - prev[j].ticks
  }

  lemma {:induction false} DeltaIsFirst(prev: seq<Row>, r: Row, d: nat)
    requires d > 0
    ensures Delta(prev, r) == Some(d) <==>
            exists j | 0 <= j < |prev| :: FirstOf(prev, r.pid, j) && d == r.ticks - prev[j].ticks
  {
    if prev != [] {
      var rest := prev[1..];
      DeltaIsFirst(rest, r, d);
      assert forall k | 0 < k < |prev| :: prev[k] == rest[k - 1];
      if prev[0].pid == r.pid {
        assert FirstOf(prev, r.pid, 0);
      } else {
        if j :| 0 <= j < |prev| && FirstOf(prev, r.pid, j) && d == r.ticks - prev[j].ticks {
          assert FirstOf(rest, r.pid, j - 1);
        }
        if j :| 0 <= j < |rest| && FirstOf(rest, r.pid, j) && d == r.ticks - rest[j].ticks {
          assert FirstOf(prev, r.pid, j + 1);
        }
      }
    }
  }

  /** The candidates are exactly the rows that used ticks. */
  lemma {:induction false} CandidatesAreUsed(prev: seq<Row>, cur: seq<Row>, i: nat, d: nat)
    ensures Entry(i, d) in Candidates(prev, cur) <==> Used(prev, cur, i, d)
  {
    if cur != [] {
      var n := |cur| - 1;
      var front := cur[..n];
      CandidatesAreUsed(prev, front, i, d);
      CandidatesRise(prev, front);
      if i == n && d > 0 {
        DeltaIsFirst(prev, cur[n], d);
      }
      assert i < n ==> (Used(prev, cur, i, d) <==> Used(prev, front, i, d));
    }
  }

  /** An index appears once among the candidates. */
  lemma UsedOnce(prev: seq<Row>, cur: seq<Row>, i: int, d: int, e: int)
    requires Used(prev, cur, i, d) && Used(prev, cur, i, e)
    ensures d == e
  {
    var j :| 0 <= j < |prev| && FirstOf(prev, cur[i].pid, j) && d == cur[i].ticks - prev[j].ticks;
    var k :| 0 <= k < |prev| && FirstOf(prev, cur[i].pid, k) && e == cur[i].ticks - prev[k].ticks;
    assert j == k;
  }

  /** Slot k as an entry. */
  function SlotEntry(best: seq<int>, deltas: seq<nat>, k: nat): Entry
    requires k < |best| && k < |deltas| && best[k] >= 0
  {
    Entry(best[k], deltas[k])
  }

  /** The slots hold the first of the candidates, best first: any other candidate comes after all of them. */
  predicate LeadsAmong(best: seq<int>, deltas: seq<nat>, all: seq<Entry>) {
    && |best| == |deltas| == SLOTS
    && (forall k | 0 <= k < SLOTS && k < |all| :: best[k] >= 0 && SlotEntry(best, deltas, k) in all)
    && (forall k | |all| <= k < SLOTS :: best[k] == -1 && deltas[k] == 0)
    && (forall j, k | 0 <= j < k < SLOTS && k < |all| ::
          Before(SlotEntry(best, deltas, j), SlotEntry(best, deltas, k)))
    && (forall e <- all ::
          || (exists k | 0 <= k < SLOTS && k < |all| :: e == SlotEntry(best, deltas, k))
          || (|all| > SLOTS && forall k | 0 <= k < SLOTS :: Before(SlotEntry(best, deltas, k), e)))
  }

  lemma InSorted(s: seq<Entry>, all: seq<Entry>, e: Entry)
    requires multiset(s) == multiset(all)
    ensures e in s <==> e in all
  {
    assert e in multiset(s) <==> e in multiset(all);
  }

  lemma HeadLeads(best: seq<int>, deltas: seq<nat>, s: seq<Entry>, all: seq<Entry>)
    requires multiset(s) == multiset(all) && |s| == |all| && Ordered(s) && Holds(best, deltas, Take3(s))
    ensures LeadsAmong(best, deltas, all)
  {
    forall k | 0 <= k < SLOTS && k < |all|
      ensures best[k] >= 0 && SlotEntry(best, deltas, k) == s[k] && s[k] in all
    {
      assert Take3(s)[k] == s[k];
      InSorted(s, all, s[k]);
    }
    forall e | e in all
      ensures || (exists k | 0 <= k < SLOTS && k < |all| :: e == SlotEntry(best, deltas, k))
              || (|all| > SLOTS && forall k | 0 <= k < SLOTS :: Before(SlotEntry(best, deltas, k), e))
    {
      InSorted(s, all, e);
      var m :| 0 <= m < |s| && s[m] == e;
      if m < SLOTS {
        assert e == SlotEntry(best, deltas, m);
      }
    }
  }

  /** Larger deltas first, ties in snapshot order. */
  predicate Ahead(i: int, d: int, j: int, e: int) {
    d > e || (d == e && i < j)
  }

  /**
   The slots hold the rows that come first, best first: a filled slot is a row that used
   that many ticks, slots are in order, and any other such row comes after every slot,
   all of which are then filled.
   */
  ghost predicate Leads(best: seq<int>, deltas: seq<nat>, prev: seq<Row>, cur: seq<Row>) {
    && |best| == |deltas| == 3
    && (forall k | 0 <= k < 3 :: Used(prev, cur, best[k], deltas[k]) || (best[k] == -1 && deltas[k] == 0))
    && (forall j, k | 0 <= j < k < 3 && best[k] != -1 :: best[j] != -1 && Ahead(best[j], deltas[j], best[k], deltas[k]))
    && (forall i, d | Used(prev, cur, i, d) ::
          || (exists k | 0 <= k < 3 :: best[k] == i && deltas[k] == d)
          || (forall k | 0 <= k < 3 :: best[k] != -1 && Ahead(best[k], deltas[k], i, d)))
  }

  /**
   Main theorem: slots that hold the head of the sorted candidates hold the three rows that
   come first by ticks used, ties in snapshot order, among the matched, non-idle rows that
   used any.
   */
  lemma TopThreeOfStableSort(prev: seq<Row>, cur: seq<Row>, best: seq<int>, deltas: seq<nat>)
    requires Holds(best, deltas, Take3(Sort(Candidates(prev, cur))))
    ensures Leads(best, deltas, prev, cur)
  {
    var all := Candidates(prev, cur);
    CandidatesRise(prev, cur);
    SortIsStable(all);
    assert |multiset(Sort(all))| == |Sort(all)| && |multiset(all)| == |all|;
    HeadLeads(best, deltas, Sort(all), all);
    LeadsByRows(best, deltas, prev, cur);
  }

  lemma SlotRow(best: seq<int>, deltas: seq<nat>, prev: seq<Row>, cur: seq<Row>, k: nat)
    requires LeadsAmong(best, deltas, Candidates(prev, cur)) && k < 3
    ensures if k < |Candidates(prev, cur)| then best[k] >= 0 && Used(prev, cur, best[k], deltas[k])
            else best[k] == -1 && deltas[k] == 0
  {
    if k < |Candidates(prev, cur)| {
      CandidatesAreUsed(prev, cur, best[k], deltas[k]);
      assert SlotEntry(best, deltas, k) == Entry(best[k], deltas[k]);
    }
  }

  lemma SlotsInOrder(best: seq<int>, deltas: seq<nat>, all: seq<Entry>, j: nat, k: nat)
    requires LeadsAmong(best, deltas, all) && j < k < 3 && best[k] != -1
    ensures best[j] != -1 && Ahead(best[j], deltas[j], best[k], deltas[k])
  {
    assert k < |all|;
    assert Before(SlotEntry(best, deltas, j), SlotEntry(best, deltas, k));
  }

  lemma OtherRow(best: seq<int>, deltas: seq<nat>, prev: seq<Row>, cur: seq<Row>, i: nat, d: nat)
    requires LeadsAmong(best, deltas, Candidates(prev, cur)) && Used(prev, cur, i, d)
    ensures || (exists k | 0 <= k < 3 :: best[k] == i && deltas[k] == d)
            || (forall k | 0 <= k < 3 :: best[k] != -1 && Ahead(best[k], deltas[k], i, d))
  {
    CandidatesAreUsed(prev, cur, i, d);
    OtherEntry(best, deltas, Candidates(prev, cur), Entry(i, d));
  }

  lemma OtherEntry(best: seq<int>, deltas: seq<nat>, all: seq<Entry>, e: Entry)
    requires LeadsAmong(best, deltas, all) && e in all
    ensures || (exists k | 0 <= k < 3 :: best[k] == e.idx && deltas[k] == e.delta)
            || (forall k | 0 <= k < 3 :: best[k] != -1 && Ahead(best[k], deltas[k], e.idx, e.delta))
  {
    if k :| 0 <= k < SLOTS && k < |all| && e == SlotEntry(best, deltas, k) {
      assert best[k] == e.idx && deltas[k] == e.delta;
    } else {
      forall k | 0 <= k < 3
        ensures best[k] != -1 && Ahead(best[k], deltas[k], e.idx, e.delta)
      {
        assert Before(SlotEntry(best, deltas, k), e);
      }
    }
  }

  lemma LeadsByRows(best: seq<int>, deltas: seq<nat>, prev: seq<Row>, cur: seq<Row>)
    requires LeadsAmong(best, deltas, Candidates(prev, cur))
    ensures Leads(best, deltas, prev, cur)
  {
    forall k | 0 <= k < 3
      ensures Used(prev, cur, best[k], deltas[k]) || (best[k] == -1 && deltas[k] == 0)
    {
      SlotRow(best, deltas, prev, cur, k);
    }
    forall j, k | 0 <= j < k < 3 && best[k] != -1
      ensures best[j] != -1 && Ahead(best[j], deltas[j], best[k], deltas[k])
    {
      SlotsInOrder(best, deltas, Candidates(prev, cur), j, k);
    }
    forall i, d | Used(prev, cur, i, d)
      ensures || (exists k | 0 <= k < 3 :: best[k] == i && deltas[k] == d)
              || (forall k | 0 <= k < 3 :: best[k] != -1 && Ahead(best[k], deltas[k], i, d))
    {
      OtherRow(best, deltas, prev, cur, i, d);
    }
  }
}
