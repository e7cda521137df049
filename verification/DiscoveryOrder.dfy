/** Which devices the bounded cache keeps: the first ones sighted, in order. */
module DiscoveryOrder {
  import opened Bytes
  import opened Discovery

  function KeyOf(x: (Addr, Sighting)): Key {
    Key(x.0, x.1.LeReport?)
  }

  function Noted(keys: seq<Key>, key: Key): seq<Key> {
    if key in keys then keys else keys + [key]
  }

  function NotedAll(keys: seq<Key>, l: seq<(Addr, Sighting)>): seq<Key>
    decreases |l|
  {
    if l == [] then keys else NotedAll(Noted(keys, KeyOf(l[0])), l[1..])
  }

  /** The distinct keys sighted since the last clear, in order of first sighting, without any bound. */
  function Sighted(evs: seq<Event>): seq<Key> {
    if evs == [] then []
    else
      var keys, e := Sighted(evs[..|evs| - 1]), evs[|evs| - 1];
      match e
      case Clear => []
      case RemoteName(_) => keys
      case _ => NotedAll(keys, Decode(e))
  }

  function KeysOf(devs: seq<Dev>): seq<Key> {
    seq(|devs|, i requires 0 <= i < |devs| => devs[i].key)
  }

  function FirstKeys(keys: seq<Key>): seq<Key> {
    if |keys| <= 24 then keys else keys[..24]
  }

  /** The cache's devices are the first of these keys, as many as fit. */
  predicate Keeps(devs: seq<Dev>, keys: seq<Key>) {
    KeysOf(devs) == FirstKeys(keys)
  }

  lemma KeyInDevs(devs: seq<Dev>, key: Key)
    ensures FindDev(devs, key) < |devs| <==> key in KeysOf(devs)
  {
    var i := FindDev(devs, key);
    if i < |devs| {
      assert KeysOf(devs)[i] == key;
    } else {
      forall k | 0 <= k < |devs|
        ensures KeysOf(devs)[k] != key
      {
      }
    }
  }

  lemma SeeKeeps(c: Cache, addr: Addr, s: Sighting, keys: seq<Key>)
    requires NamesSized(c.devs) && Keeps(c.devs, keys)
    ensures Keeps(See(c, addr, s).devs, Noted(keys, Key(addr, s.LeReport?)))
  {
    var key := Key(addr, s.LeReport?);
    var i := FindDev(c.devs, key);
    var c' := See(c, addr, s);
    KeyInDevs(c.devs, key);
    assert |c.devs| == |FirstKeys(keys)|;
    if i < |c.devs| {
      assert KeysOf(c'.devs) == KeysOf(c.devs);
      assert key in keys;
    } else if |c.devs| < CAPACITY {
      assert FirstKeys(keys) == keys;
      assert KeysOf(c'.devs) == KeysOf(c.devs) + [key];
    } else {
      assert FirstKeys(keys + [key]) == FirstKeys(keys);
    }
  }

  lemma {:induction false} SeeAllKeeps(c: Cache, l: seq<(Addr, Sighting)>, keys: seq<Key>)
    requires NamesSized(c.devs) && Keeps(c.devs, keys)
    ensures Keeps(SeeAll(c, l).devs, NotedAll(keys, l))
    decreases |l|
  {
    if l != [] {
      SeeKeeps(c, l[0].0, l[0].1, keys);
      SeeAllKeeps(See(c, l[0].0, l[0].1), l[1..], Noted(keys, KeyOf(l[0])));
    }
  }

  lemma RenameKeepsKeys(c: Cache, p: seq<byte>)
    requires NamesSized(c.devs)
    ensures KeysOf(Rename(c, p).devs) == KeysOf(c.devs)
  {
  }

  lemma StepKeeps(c: Cache, e: Event, keys: seq<Key>)
    requires NamesSized(c.devs) && Keeps(c.devs, keys)
    ensures Keeps(Step(c, e).devs,
                  if e.Clear? then [] else if e.RemoteName? then keys else NotedAll(keys, Decode(e)))
  {
    if e.RemoteName? {
      RenameKeepsKeys(c, e.p);
    } else if !e.Clear? {
      SeeAllKeeps(c, Decode(e), keys);
    }
  }

  /**
   Main theorem: over any mix of reports, results, renames and clears the cache holds
   exactly the first 24 distinct keys sighted since the last clear, in that order.
   */
  lemma {:induction false} FirstSightedAreKept(evs: seq<Event>)
    ensures Keeps(Run(evs).devs, Sighted(evs))
  {
    if evs != [] {
      FirstSightedAreKept(evs[..|evs| - 1]);
      StepKeeps(Run(evs[..|evs| - 1]), evs[|evs| - 1], Sighted(evs[..|evs| - 1]));
    }
  }
}
