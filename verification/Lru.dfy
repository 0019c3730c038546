/** A user's device slots are a least-recently-used cache of external IDs whose
    capacity is the limit. */
module Lru {
  import opened Results
  import opened Masks
  import opened Tables
  import opened Slots
  import opened Resync
  import opened Priority
  import opened Invariants

  // ---- The cache ----

  datatype Connect = Connect(key: string, time: int)

  function Remove<T(==)>(xs: seq<T>, x: T): seq<T> {
    if xs == [] then []
    else if xs[0] == x then xs[1..]
    else [xs[0]] + Remove(xs[1..], x)
  }

  /** Moves x to the front, and drops the last element if that exceeds the capacity. */
  function Touch<T(==)>(cache: seq<T>, x: T, capacity: nat): seq<T> {
    var moved := [x] + Remove(cache, x);
    if |moved| <= capacity then moved else moved[..capacity]
  }

  /** The cache after the connects of a history, most recent first. */
  function Cache(h: seq<Connect>, capacity: nat): seq<string> {
    if h == [] then [] else Touch(Cache(h[..|h| - 1], capacity), h[|h| - 1].key, capacity)
  }

  // ---- Histories ----

  function Seen(h: seq<Connect>): set<string> {
    set c | c in h :: c.key
  }

  /** When key last connected. */
  function Last(h: seq<Connect>, key: string): int
    requires key in Seen(h)
  {
    if h[|h| - 1].key == key then h[|h| - 1].time else Last(h[..|h| - 1], key)
  }

  ghost predicate Later(h: seq<Connect>, time: int) {
    forall c :: c in h ==> c.time < time
  }

  ghost predicate Increasing(h: seq<Connect>) {
    forall i, j :: 0 <= i < j < |h| ==> h[i].time < h[j].time
  }

  /** keys are the most recent of the keys seen, as many as fit. */
  ghost predicate MostRecent(h: seq<Connect>, capacity: nat, keys: set<string>) {
    && keys <= Seen(h)
    && |keys| == (if |Seen(h)| <= capacity then |Seen(h)| else capacity)
    && (forall k, k' :: k in keys && k' in Seen(h) && k' !in keys ==> Last(h, k') < Last(h, k))
  }

  lemma LastSnoc(h: seq<Connect>, c: Connect)
    requires Later(h, c.time)
    ensures Seen(h + [c]) == Seen(h) + {c.key}
    ensures Last(h + [c], c.key) == c.time
    ensures forall k :: k in Seen(h) && k != c.key ==> Last(h + [c], k) == Last(h, k)
    ensures forall k :: k in Seen(h) ==> Last(h, k) < c.time
  {
    assert (h + [c])[..|h|] == h;
    forall k | k in Seen(h) ensures Last(h, k) < c.time {
      LastIsTime(h, k);
    }
  }

  lemma {:induction false} LastIsTime(h: seq<Connect>, key: string)
    requires key in Seen(h)
    ensures Connect(key, Last(h, key)) in h
  {
    var n := |h| - 1;
    if h[n].key == key {
      assert h[n] == Connect(key, h[n].time);
    } else {
      assert h == h[..n] + [h[n]];
      LastIsTime(h[..n], key);
    }
  }

  /** Under increasing times, no two keys connected last at the same time. */
  lemma LastIsInjective(h: seq<Connect>, k: string, k': string)
    requires Increasing(h) && k in Seen(h) && k' in Seen(h) && Last(h, k) == Last(h, k')
    ensures k == k'
  {
    LastIsTime(h, k);
    LastIsTime(h, k');
    var i :| 0 <= i < |h| && h[i] == Connect(k, Last(h, k));
    var j :| 0 <= j < |h| && h[j] == Connect(k', Last(h, k'));
    assert i == j;
  }

  /** There is only one set of most recent keys. */
  lemma MostRecentIsUnique(h: seq<Connect>, capacity: nat, a: set<string>, b: set<string>)
    requires MostRecent(h, capacity, a) && MostRecent(h, capacity, b)
    ensures a == b
  {
    if k :| k in a && k !in b {
      forall k' | k' in b ensures k' in a {
        OlderIsIn(h, capacity, a, b, k, k');
      }
      ProperIsSmaller(b, a, k);
    }
    SameSize(a, b);
  }

  lemma OlderIsIn(h: seq<Connect>, capacity: nat, a: set<string>, b: set<string>, k: string, k': string)
    requires MostRecent(h, capacity, a) && MostRecent(h, capacity, b) && k in a && k !in b && k' in b
    ensures k' in a
  {
  }

  lemma ProperIsSmaller<T>(a: set<T>, b: set<T>, x: T)
    requires a <= b && x in b && x !in a
    ensures |a| < |b|
  {
    assert b == a + (b - a);
    assert x in b - a;
  }

  // ---- The cache holds the most recent keys ----

  /** keys are distinct, ordered from the most recent on. */
  ghost predicate RecentFirst(h: seq<Connect>, keys: seq<string>) {
    && (forall i :: 0 <= i < |keys| ==> keys[i] in Seen(h))
    && (forall i, j :: 0 <= i < j < |keys| ==> Last(h, keys[i]) > Last(h, keys[j]))
  }

  function Keys(xs: seq<string>): set<string> {
    set x | x in xs
  }

  lemma {:induction false} RemoveAt<T>(xs: seq<T>, x: T) returns (p: nat)
    requires x in xs
    ensures p < |xs| && xs[p] == x && Remove(xs, x) == xs[..p] + xs[p + 1..]
  {
    if xs[0] == x {
      p := 0;
    } else {
      p := RemoveAt(xs[1..], x);
      p := p + 1;
      assert [xs[0]] + (xs[1..][..p - 1] + xs[1..][p..]) == xs[..p] + xs[p + 1..];
    }
  }

  lemma {:induction false} RemoveAbsent<T>(xs: seq<T>, x: T)
    requires x !in xs
    ensures Remove(xs, x) == xs
  {
    if xs != [] {
      RemoveAbsent(xs[1..], x);
    }
  }

  lemma {:induction false} DistinctKeys(xs: seq<string>)
    requires forall i, j :: 0 <= i < j < |xs| ==> xs[i] != xs[j]
    ensures |Keys(xs)| == |xs|
  {
    if xs != [] {
      var n := |xs| - 1;
      DistinctKeys(xs[..n]);
      assert Keys(xs) == Keys(xs[..n]) + {xs[n]};
    }
  }

  /** The cache lists exactly the most recent keys, from the most recent on. */
  lemma {:induction false} CacheIsMostRecent(h: seq<Connect>, capacity: nat)
    requires Increasing(h)
    ensures RecentFirst(h, Cache(h, capacity)) && MostRecent(h, capacity, Keys(Cache(h, capacity)))
  {
    if h == [] {
      assert Keys([]) == Seen([]) == {};
    } else {
      var n := |h| - 1;
      assert h == h[..n] + [h[n]];
      CacheIsMostRecent(h[..n], capacity);
      TouchKeepsMostRecent(h[..n], h[n], capacity, Cache(h[..n], capacity));
    }
  }

  lemma TouchKeepsMostRecent(h: seq<Connect>, c: Connect, capacity: nat, cache: seq<string>)
    requires Later(h, c.time) && RecentFirst(h, cache) && MostRecent(h, capacity, Keys(cache))
    ensures var cache' := Touch(cache, c.key, capacity);
      RecentFirst(h + [c], cache') && MostRecent(h + [c], capacity, Keys(cache'))
  {
    DistinctKeys(cache);
    if c.key in cache {
      var p := RemoveAt(cache, c.key);
      Moved(h, c, capacity, cache, p);
    } else {
      RemoveAbsent(cache, c.key);
      if |cache| < capacity {
        Added(h, c, capacity, cache);
      } else {
        Evicted(h, c, capacity, cache);
      }
    }
  }

  /** A newly connected key in front of others in order. */
  lemma InFront(h: seq<Connect>, c: Connect, rest: seq<string>)
    requires Later(h, c.time) && RecentFirst(h, rest) && c.key !in rest
    ensures RecentFirst(h + [c], [c.key] + rest) && Keys([c.key] + rest) == Keys(rest) + {c.key}
  {
    LastSnoc(h, c);
  }

  lemma Moved(h: seq<Connect>, c: Connect, capacity: nat, cache: seq<string>, p: nat)
    requires Later(h, c.time) && RecentFirst(h, cache) && MostRecent(h, capacity, Keys(cache))
    requires p < |cache| && cache[p] == c.key
    ensures var cache' := [c.key] + (cache[..p] + cache[p + 1..]);
      RecentFirst(h + [c], cache') && MostRecent(h + [c], capacity, Keys(cache'))
  {
    var rest := cache[..p] + cache[p + 1..];
    CutOrder(h, cache, p);
    InFront(h, c, rest);
    HitKeepsMostRecent(h, c, capacity, Keys(cache));
    assert cache == cache[..p] + [c.key] + cache[p + 1..];
    assert Keys(rest) + {c.key} == Keys(cache);
  }

  lemma CutOrder(h: seq<Connect>, cache: seq<string>, p: nat)
    requires RecentFirst(h, cache) && p < |cache|
    ensures var rest := cache[..p] + cache[p + 1..]; RecentFirst(h, rest) && cache[p] !in rest
  {
    var rest := cache[..p] + cache[p + 1..];
    assert forall i :: 0 <= i < |rest| ==> rest[i] == if i < p then cache[i] else cache[i + 1];
  }

  lemma Added(h: seq<Connect>, c: Connect, capacity: nat, cache: seq<string>)
    requires Later(h, c.time) && RecentFirst(h, cache) && MostRecent(h, capacity, Keys(cache))
    requires c.key !in cache && |Keys(cache)| == |cache| < capacity
    ensures RecentFirst(h + [c], [c.key] + cache) && MostRecent(h + [c], capacity, Keys([c.key] + cache))
  {
    InFront(h, c, cache);
    MissAddsToMostRecent(h, c, capacity, Keys(cache));
  }

  lemma Evicted(h: seq<Connect>, c: Connect, capacity: nat, cache: seq<string>)
    requires Later(h, c.time) && RecentFirst(h, cache) && MostRecent(h, capacity, Keys(cache))
    requires c.key !in cache && |Keys(cache)| == |cache| == capacity
    ensures var cache' := ([c.key] + cache)[..capacity];
      RecentFirst(h + [c], cache') && MostRecent(h + [c], capacity, Keys(cache'))
  {
    if capacity == 0 {
      assert Keys([]) == {} && ([c.key] + cache)[..capacity] == [];
    } else {
      var rest, oldest := cache[..capacity - 1], cache[capacity - 1];
      assert ([c.key] + cache)[..capacity] == [c.key] + rest;
      CutOrder(h, cache, capacity - 1);
      assert cache[..capacity - 1] + cache[capacity..] == rest;
      InFront(h, c, rest);
      KeysWithoutLast(cache);
      MissReplacesOldest(h, c, capacity, Keys(cache), oldest);
    }
  }

  lemma KeysWithoutLast(cache: seq<string>)
    requires cache != [] && |Keys(cache)| == |cache|
    ensures Keys(cache) - {cache[|cache| - 1]} == Keys(cache[..|cache| - 1])
  {
    var n := |cache| - 1;
    assert cache == cache[..n] + [cache[n]];
    assert Keys(cache) == Keys(cache[..n]) + {cache[n]};
    AtMostLength(cache[..n]);
    Grows(Keys(cache[..n]), cache[n]);
  }

  lemma {:induction false} AtMostLength(xs: seq<string>)
    ensures |Keys(xs)| <= |xs|
  {
    if xs != [] {
      var n := |xs| - 1;
      AtMostLength(xs[..n]);
      assert Keys(xs) == Keys(xs[..n]) + {xs[n]};
    }
  }

  // ---- What a connect does to the most recent keys ----

  /** Reconnecting a key that is held. */
  lemma HitKeepsMostRecent(h: seq<Connect>, c: Connect, capacity: nat, keys: set<string>)
    requires Later(h, c.time) && MostRecent(h, capacity, keys) && c.key in keys
    ensures MostRecent(h + [c], capacity, keys)
  {
    LastSnoc(h, c);
    assert Seen(h + [c]) == Seen(h);
  }

  /** With room left, the connecting key was never seen and is added. */
  lemma MissAddsToMostRecent(h: seq<Connect>, c: Connect, capacity: nat, keys: set<string>)
    requires Later(h, c.time) && MostRecent(h, capacity, keys) && c.key !in keys && |keys| < capacity
    ensures MostRecent(h + [c], capacity, keys + {c.key})
  {
    LastSnoc(h, c);
    SameSize(keys, Seen(h));
  }

  /** At capacity, the connecting key takes the place of the least recent one. */
  lemma MissReplacesOldest(h: seq<Connect>, c: Connect, capacity: nat, keys: set<string>, oldest: string)
    requires Later(h, c.time) && MostRecent(h, capacity, keys) && c.key !in keys && |keys| == capacity
    requires oldest in keys && forall k :: k in keys && k != oldest ==> Last(h, oldest) < Last(h, k)
    ensures MostRecent(h + [c], capacity, keys - {oldest} + {c.key})
  {
    LastSnoc(h, c);
    Grows(Seen(h), c.key);
    Grows(keys - {oldest}, c.key);
    Grows(keys - {oldest}, oldest);
    assert keys - {oldest} + {oldest} == keys;
    ReplacedAreRecent(h, c, capacity, keys, oldest);
  }

  lemma ReplacedAreRecent(h: seq<Connect>, c: Connect, capacity: nat, keys: set<string>, oldest: string)
    requires Later(h, c.time) && MostRecent(h, capacity, keys) && c.key !in keys
    requires oldest in keys && forall k :: k in keys && k != oldest ==> Last(h, oldest) < Last(h, k)
    ensures var keys' := keys - {oldest} + {c.key};
      keys' <= Seen(h + [c]) &&
      forall k, k' :: k in keys' && k' in Seen(h + [c]) && k' !in keys' ==> Last(h + [c], k') < Last(h + [c], k)
  {
    LastSnoc(h, c);
    var keys' := keys - {oldest} + {c.key};
    forall k, k' | k in keys' && k' in Seen(h + [c]) && k' !in keys' ensures Last(h + [c], k') < Last(h + [c], k) {
      assert k' != c.key && Last(h + [c], k') == Last(h, k');
      if k != c.key && k' != oldest {
        assert Last(h, k') < Last(h, k);
      }
    }
  }

  lemma Grows<T>(a: set<T>, x: T)
    ensures |a + {x}| == if x in a then |a| else |a| + 1
  {
    if x in a {
      assert a + {x} == a;
    }
  }

  // ---- The device table as a cache ----

  function Held(s: Store, u: int): set<string> {
    set id | id in s.devices && s.devices[id].owner == u :: s.devices[id].externalID
  }

  function Capacity(s: Store): nat {
    if s.limit < 0 then 0 else s.limit
  }

  /** The user's slots hold the most recent keys, each with the time of its last
      connect, and every slot without a session is older than every slot with one. */
  ghost predicate Mirrors(s: Store, u: int, h: seq<Connect>) {
    && u in s.templates && Increasing(h)
    && MostRecent(h, Capacity(s), Held(s, u))
    && (forall id :: Owns(s, u, id) ==> Times(s.devices[id], h))
    && (forall i, j :: Owns(s, u, i) && Owns(s, u, j) ==> InactiveIsOlder(s.devices[i], s.devices[j]))
  }

  ghost predicate Times(d: Device, h: seq<Connect>) {
    d.externalID != "" && d.externalID in Seen(h) && d.lastConnected == Some(Last(h, d.externalID))
  }

  predicate InactiveIsOlder(d: Device, e: Device) {
    d.session == "" && e.session != "" && d.lastConnected.Some? && e.lastConnected.Some? ==>
      d.lastConnected.value < e.lastConnected.value
  }

  lemma {:induction false} AsManyKeysAsRows(s: Store, ids: set<int>)
    requires ids <= s.devices.Keys
    requires forall i, j :: i in ids && j in ids && i != j ==> s.devices[i].externalID != s.devices[j].externalID
    ensures |set id | id in ids :: s.devices[id].externalID| == |ids|
  {
    var keys := set id | id in ids :: s.devices[id].externalID;
    if ids != {} {
      var i := SomeElement(ids);
      AsManyKeysAsRows(s, ids - {i});
      assert keys == (set id | id in ids - {i} :: s.devices[id].externalID) + {s.devices[i].externalID};
    } else {
      assert keys == {};
    }
  }

  lemma SomeElement<T>(xs: set<T>) returns (x: T)
    requires xs != {}
    ensures x in xs
  {
    x :| x in xs;
  }

  lemma HeldCount(s: Store, u: int)
    requires Inv(s) && forall id :: Owns(s, u, id) ==> s.devices[id].externalID != ""
    ensures |Held(s, u)| == |Rows(s, u)|
  {
    forall i, j | i in Rows(s, u) && j in Rows(s, u) && i != j
      ensures s.devices[i].externalID != s.devices[j].externalID
    {
      assert Owns(s, u, i) && !SameKey(s.devices[i], s.devices[j]);
    }
    AsManyKeysAsRows(s, Rows(s, u));
    assert Held(s, u) == set id | id in Rows(s, u) :: s.devices[id].externalID;
  }

  lemma HeldSize(s: Store, u: int, h: seq<Connect>)
    requires Inv(s) && Mirrors(s, u, h)
    ensures |Held(s, u)| == |Rows(s, u)|
  {
    assert forall id :: Owns(s, u, id) ==> Times(s.devices[id], h);
    HeldCount(s, u);
  }

  // ---- Connects ----

  lemma HeldAfterUpdate(s: Store, u: int, id: int, d: Device)
    requires Inv(s) && Owns(s, u, id) && d.owner == u && s.devices[id].externalID != ""
    ensures Held(s.(devices := s.devices[id := d]), u) == Held(s, u) - {s.devices[id].externalID} + {d.externalID}
  {
    var s' := s.(devices := s.devices[id := d]);
    forall k | k in Held(s, u) && k != s.devices[id].externalID ensures k in Held(s', u) {
      var j :| j in s.devices && s.devices[j].owner == u && s.devices[j].externalID == k;
      assert s'.devices[j] == s.devices[j];
    }
    forall k | k in Held(s', u) && k != d.externalID ensures k in Held(s, u) && k != s.devices[id].externalID {
      var j :| j in s'.devices && s'.devices[j].owner == u && s'.devices[j].externalID == k;
      assert j != id && s'.devices[j] == s.devices[j];
      if k == s.devices[id].externalID {
        assert SameKey(s.devices[j], s.devices[id]);
      }
    }
    assert s'.devices[id].externalID in Held(s', u);
  }

  /** Writing the connect's key, session and time into one row. */
  lemma RowsAfterConnect(s: Store, u: int, h: seq<Connect>, c: Connect, id: int, d: Device, s': Store)
    requires Inv(s) && Mirrors(s, u, h) && Later(h, c.time) && c.key != ""
    requires d.owner == u && d.externalID == c.key && d.session != "" && d.lastConnected == Some(c.time)
    requires s'.devices == s.devices[id := d]
    requires forall j :: Owns(s, u, j) && j != id ==> s.devices[j].externalID != c.key
    ensures forall j :: Owns(s', u, j) ==> Times(s'.devices[j], h + [c])
    ensures forall i, j :: Owns(s', u, i) && Owns(s', u, j) ==> InactiveIsOlder(s'.devices[i], s'.devices[j])
  {
    LastSnoc(h, c);
    forall j | Owns(s', u, j) ensures Times(s'.devices[j], h + [c]) {
      if j != id {
        assert Owns(s, u, j) && Times(s.devices[j], h);
      }
    }
    forall i, j | Owns(s', u, i) && Owns(s', u, j) ensures InactiveIsOlder(s'.devices[i], s'.devices[j]) {
      if i != id {
        assert Owns(s, u, i) && Times(s.devices[i], h);
        if j != id {
          assert Owns(s, u, j) && InactiveIsOlder(s.devices[i], s.devices[j]);
        }
      }
    }
  }

  /** The row that is overwritten at the limit holds the least recent key. */
  lemma VictimIsOldest(s: Store, u: int, h: seq<Connect>, key: string, slot: Slot, k: string)
    requires Inv(s) && Mirrors(s, u, h) && Chosen(s, u, key, slot) && (slot.Overwrite? || slot.Kick?)
    requires k in Held(s, u) && k != s.devices[slot.id].externalID
    ensures s.devices[slot.id].externalID in Seen(h) && k in Seen(h)
    ensures Last(h, s.devices[slot.id].externalID) < Last(h, k)
  {
    var id := slot.id;
    var j :| j in s.devices && s.devices[j].owner == u && s.devices[j].externalID == k;
    assert Owns(s, u, id) && Times(s.devices[id], h);
    assert Owns(s, u, j) && Times(s.devices[j], h);
    if slot.Overwrite? && s.devices[j].session != "" {
      assert InactiveIsOlder(s.devices[id], s.devices[j]);
    } else {
      assert NotAfter(s.devices[id].lastConnected, s.devices[j].lastConnected) by {
        if slot.Overwrite? { assert j in Inactive(s, u); } else { assert j in Rows(s, u); }
      }
    }
    if Last(h, s.devices[id].externalID) == Last(h, k) {
      LastIsInjective(h, s.devices[id].externalID, k);
    }
  }

  lemma IncreasingSnoc(h: seq<Connect>, c: Connect)
    requires Increasing(h) && Later(h, c.time)
    ensures Increasing(h + [c])
  {
  }

  /** A successful assignment does to the slots what a connect does to the cache. */
  lemma ConnectMirrors(s: Store, u: int, h: seq<Connect>, session: string, ext: string, info: string, now: int,
                       faults: set<Fault>, s': Store, key: string)
    requires Inv(s) && Mirrors(s, u, h) && Later(h, now)
    requires AssignStep(s, u, session, ext, info, now, faults, s', Ok(key))
    ensures Mirrors(s', u, h + [Connect(key, now)])
  {
    var c := Connect(key, now);
    var slot :| Chosen(s, u, key, slot) && Assigned(s, u, key, session, info, now, slot, s');
    if slot.NewRow? {
      var d := NewDevice(u, key, info).(session := session, lastConnected := Some(now));
      NewRowConnects(s, u, h, c, d, s');
    } else {
      assert forall id :: Owns(s, u, id) ==> Times(s.devices[id], h);
      ReusedRowConnects(s, u, h, c, slot, Connected(s.devices[slot.id], slot, key, session, info, now), s');
    }
  }

  lemma NewRowConnects(s: Store, u: int, h: seq<Connect>, c: Connect, d: Device, s': Store)
    requires Inv(s) && Mirrors(s, u, h) && Later(h, c.time) && Chosen(s, u, c.key, NewRow) && c.key != ""
    requires d.owner == u && d.externalID == c.key && d.session != "" && d.lastConnected == Some(c.time)
    requires s'.devices == s.devices[s.nextID := d] && s'.limit == s.limit && s'.templates == s.templates
    ensures Mirrors(s', u, h + [c])
  {
    HeldSize(s, u, h);
    IncreasingSnoc(h, c);
    assert forall j :: Owns(s, u, j) ==> !Holds(s, u, c.key, j);
    RowsAfterConnect(s, u, h, c, s.nextID, d, s');
    NewRowMirrors(s, u, h, c, d, s');
  }

  lemma ReusedRowConnects(s: Store, u: int, h: seq<Connect>, c: Connect, slot: Slot, d: Device, s': Store)
    requires Inv(s) && Mirrors(s, u, h) && Later(h, c.time) && Chosen(s, u, c.key, slot) && c.key != ""
    requires slot.Reuse? || slot.Overwrite? || slot.Kick?
    requires d.owner == u && d.externalID == c.key && d.session != "" && d.lastConnected == Some(c.time)
    requires s' == s.(devices := s.devices[slot.id := d])
    ensures Mirrors(s', u, h + [c])
  {
    HeldSize(s, u, h);
    IncreasingSnoc(h, c);
    assert Times(s.devices[slot.id], h);
    HeldAfterUpdate(s, u, slot.id, d);
    OnlyHolder(s, u, c.key, slot);
    RowsAfterConnect(s, u, h, c, slot.id, d, s');
    OverwriteMirrors(s, u, h, c, slot, Held(s', u));
  }

  lemma OnlyHolder(s: Store, u: int, key: string, slot: Slot)
    requires Inv(s) && key != "" && Chosen(s, u, key, slot) && !slot.NewRow?
    ensures forall j :: Owns(s, u, j) && j != slot.id ==> s.devices[j].externalID != key
  {
    forall j | Owns(s, u, j) && j != slot.id ensures s.devices[j].externalID != key {
      if slot.Reuse? {
        assert SameKey(s.devices[j], s.devices[slot.id]) || s.devices[j].externalID != key;
      } else {
        assert !Holds(s, u, key, j);
      }
    }
  }

  lemma NewRowMirrors(s: Store, u: int, h: seq<Connect>, c: Connect, d: Device, s': Store)
    requires Inv(s) && Mirrors(s, u, h) && Later(h, c.time) && |Held(s, u)| == |Rows(s, u)|
    requires Chosen(s, u, c.key, NewRow) && d.owner == u && d.externalID == c.key
    requires s'.devices == s.devices[s.nextID := d] && s'.limit == s.limit
    ensures MostRecent(h + [c], Capacity(s'), Held(s', u))
  {
    NotHeld(s, u, c.key);
    HeldAfterInsert(s, u, d, s');
    MissAddsToMostRecent(h, c, Capacity(s), Held(s, u));
  }

  lemma NotHeld(s: Store, u: int, key: string)
    requires !HasKey(s, u, key)
    ensures key !in Held(s, u)
  {
    assert forall id :: id in s.devices ==> !Holds(s, u, key, id);
  }

  lemma HeldAfterInsert(s: Store, u: int, d: Device, s': Store)
    requires s.Valid() && d.owner == u && s'.devices == s.devices[s.nextID := d]
    ensures Held(s', u) == Held(s, u) + {d.externalID}
  {
    assert s'.devices[s.nextID].externalID in Held(s', u);
    forall k | k in Held(s, u) ensures k in Held(s', u) {
      var j :| j in s.devices && s.devices[j].owner == u && s.devices[j].externalID == k;
      assert s'.devices[j] == s.devices[j];
    }
  }

  lemma OverwriteMirrors(s: Store, u: int, h: seq<Connect>, c: Connect, slot: Slot, held: set<string>)
    requires Inv(s) && Mirrors(s, u, h) && Later(h, c.time) && |Held(s, u)| == |Rows(s, u)|
    requires Chosen(s, u, c.key, slot) && (slot.Reuse? || slot.Overwrite? || slot.Kick?)
    requires held == Held(s, u) - {s.devices[slot.id].externalID} + {c.key}
    ensures MostRecent(h + [c], Capacity(s), held)
  {
    var gone := s.devices[slot.id].externalID;
    assert gone in Held(s, u);
    if slot.Reuse? {
      assert held == Held(s, u);
      HitKeepsMostRecent(h, c, Capacity(s), Held(s, u));
    } else {
      NotHeld(s, u, c.key);
      forall k | k in Held(s, u) && k != gone ensures Last(h, gone) < Last(h, k) {
        VictimIsOldest(s, u, h, c.key, slot, k);
      }
      MissReplacesOldest(h, c, Capacity(s), Held(s, u), gone);
    }
  }

  // ---- Everything else ----

  /** The user's rows differ at most by sessions that were cleared from the oldest on. */
  ghost predicate OnlyClears(s: Store, u: int, s': Store) {
    && s'.limit == s.limit && u in s'.templates
    && (forall id :: Owns(s', u, id) <==> Owns(s, u, id))
    && (forall id :: Owns(s, u, id) ==> s'.devices[id] == s.devices[id] || s'.devices[id] == Cleared(s.devices[id]))
    && (forall i, j :: Owns(s, u, i) && Owns(s, u, j) && InactiveIsOlder(s.devices[i], s.devices[j]) ==>
          InactiveIsOlder(s'.devices[i], s'.devices[j]))
  }

  lemma ClearMirrors(s: Store, u: int, h: seq<Connect>, s': Store)
    requires Mirrors(s, u, h) && OnlyClears(s, u, s')
    ensures Mirrors(s', u, h)
  {
    assert Held(s', u) == Held(s, u) by {
      forall k | k in Held(s, u) ensures k in Held(s', u) {
        var j :| j in s.devices && s.devices[j].owner == u && s.devices[j].externalID == k;
        assert Owns(s, u, j) && Owns(s', u, j);
      }
      forall k | k in Held(s', u) ensures k in Held(s, u) {
        var j :| j in s'.devices && s'.devices[j].owner == u && s'.devices[j].externalID == k;
        assert Owns(s, u, j) && Owns(s', u, j);
      }
    }
    forall id | Owns(s', u, id) ensures Times(s'.devices[id], h) {
      assert Owns(s, u, id) && Times(s.devices[id], h);
    }
    forall i, j | Owns(s', u, i) && Owns(s', u, j) ensures InactiveIsOlder(s'.devices[i], s'.devices[j]) {
      assert Owns(s, u, i) && Owns(s, u, j) && InactiveIsOlder(s.devices[i], s.devices[j]);
    }
  }

  lemma UntouchedRows(s: Store, u: int, s': Store)
    requires u in s.templates && s'.limit == s.limit && u in s'.templates
    requires Rows(s', u) == Rows(s, u) && forall id :: id in Rows(s, u) ==> s'.devices[id] == s.devices[id]
    ensures OnlyClears(s, u, s')
  {
    forall id ensures Owns(s', u, id) <==> Owns(s, u, id) {
      assert id in Rows(s', u) <==> id in Rows(s, u);
    }
  }

  /** The rows left over when some of the user's devices are deleted no longer mirror the cache. */
  lemma RemovalBreaks(s: Store, u: int, h: seq<Connect>, s': Store)
    requires Inv(s) && Inv(s') && Mirrors(s, u, h) && s'.limit == s.limit
    requires Rows(s', u) < Rows(s, u) && forall id :: id in Rows(s', u) ==> s'.devices[id] == s.devices[id]
    ensures !Mirrors(s', u, h)
  {
    if Mirrors(s', u, h) {
      HeldSize(s, u, h);
      HeldSize(s', u, h);
      SameSize(Rows(s', u), Rows(s, u));
    }
  }

  /** Nor do the rows with a new device of the user that has never connected. */
  lemma InsertBreaks(s: Store, u: int, h: seq<Connect>, d: Device, addrs: seq<Prefix>)
    requires d.owner == u && d.lastConnected.None?
    ensures !Mirrors(Inserted(s, d, addrs), u, h)
  {
    assert Owns(Inserted(s, d, addrs), u, s.nextID);
    assert !Times(d, h);
  }

  // ---- Clearing sessions ----

  predicate ConnectedBefore(d: Device, e: Device) {
    d.lastConnected.Some? && e.lastConnected.Some? && d.lastConnected.value < e.lastConnected.value
  }

  /** Every session of the user that is cleared is older than every one that is left. */
  ghost predicate ClearsOldest(s: Store, u: int, ids: set<int>) {
    forall i, j :: Owns(s, u, i) && Owns(s, u, j) && i in ids && j !in ids ==>
      ClearedIsOlder(s.devices[i], s.devices[j])
  }

  predicate ClearedIsOlder(d: Device, e: Device) {
    d.session != "" && e.session != "" ==> ConnectedBefore(d, e)
  }

  /** Clearing sessions leaves the correspondence exactly when it goes by age. */
  lemma ClearMirrorsExactly(s: Store, u: int, h: seq<Connect>, ids: set<int>)
    requires Mirrors(s, u, h)
    ensures Mirrors(ClearSessions(s, ids), u, h) <==> ClearsOldest(s, u, ids)
  {
    if ClearsOldest(s, u, ids) {
      ClearsOldestKeepsOrder(s, u, h, ids);
      ClearMirrors(s, u, h, ClearSessions(s, ids));
    }
    if Mirrors(ClearSessions(s, ids), u, h) {
      MirrorsClearsOldest(s, u, h, ids);
    }
  }

  lemma ClearsOldestKeepsOrder(s: Store, u: int, h: seq<Connect>, ids: set<int>)
    requires Mirrors(s, u, h) && ClearsOldest(s, u, ids)
    ensures OnlyClears(s, u, ClearSessions(s, ids))
  {
    var s' := ClearSessions(s, ids);
    forall i, j | Owns(s, u, i) && Owns(s, u, j) && InactiveIsOlder(s.devices[i], s.devices[j])
      ensures InactiveIsOlder(s'.devices[i], s'.devices[j])
    {
      if i in ids && j !in ids {
        assert ClearedIsOlder(s.devices[i], s.devices[j]);
      }
    }
  }

  lemma MirrorsClearsOldest(s: Store, u: int, h: seq<Connect>, ids: set<int>)
    requires Mirrors(s, u, h) && Mirrors(ClearSessions(s, ids), u, h)
    ensures ClearsOldest(s, u, ids)
  {
    var s' := ClearSessions(s, ids);
    forall i, j | Owns(s, u, i) && Owns(s, u, j) && i in ids && j !in ids
      ensures ClearedIsOlder(s.devices[i], s.devices[j])
    {
      assert Times(s.devices[i], h) && Times(s.devices[j], h);
      assert Owns(s', u, i) && Owns(s', u, j) && InactiveIsOlder(s'.devices[i], s'.devices[j]);
    }
  }

  /** Clearing one device's session leaves the correspondence exactly when the device has
      none, or connected before every other device of the user that has one. */
  lemma ClearOneExactly(s: Store, u: int, h: seq<Connect>, id: int)
    requires Mirrors(s, u, h) && Owns(s, u, id)
    ensures Mirrors(ClearSessions(s, {id}), u, h) <==>
      s.devices[id].session == "" || forall j :: Owns(s, u, j) && j != id && s.devices[j].session != "" ==>
        ConnectedBefore(s.devices[id], s.devices[j])
  {
    ClearMirrorsExactly(s, u, h, {id});
    if ClearsOldest(s, u, {id}) && s.devices[id].session != "" {
      forall j | Owns(s, u, j) && j != id && s.devices[j].session != ""
        ensures ConnectedBefore(s.devices[id], s.devices[j])
      {
        assert ClearedIsOlder(s.devices[id], s.devices[j]);
      }
    }
  }

  /** Expiry sweeps and the clearing of whole users always go by age. */
  lemma SweepsClearOldest(s: Store, op: Op, u: int, h: seq<Connect>)
    requires Mirrors(s, u, h) && (op.ExpireSessions? || op.ClearUserSessions? || op.ClearCertSessions?)
    ensures ClearsOldest(s, u, Matching(s, op))
  {
    assert forall id :: Owns(s, u, id) ==> Times(s.devices[id], h);
  }

  // ---- Calls that leave the cache alone ----

  /** A successful assignment of the user. */
  ghost predicate Connects(s: Store, c: Call, s': Store, u: int) {
    c.op.Assign? && c.op.user == u &&
    exists key :: AssignStep(s, u, c.op.session, c.op.ext, c.op.info, c.op.now, c.faults, s', Ok(key))
  }

  /** The other calls after which the user's slots still mirror the cache: connects that
      fail without leaving a row, other users' calls, resyncs that delete none of the user's
      devices, and session clearing that goes by age. */
  ghost predicate Respects(s: Store, c: Call, s': Store, u: int) {
    match c.op
    case Assign(v, _, _, _, _) => v != u || s' == s
    case Create(v, _, _) => v != u || s' == s
    case Delete(id) => !Owns(s, u, id) || s' == s
    case ResyncTemplate(v) => Rows(s', u) == Rows(s, u)
    case ClearDeviceSession(id) => ClearsOldest(s, u, {id}) || s' == s
    case _ => true
  }

  lemma RespectfulAssign(s: Store, c: Call, s': Store, u: int, h: seq<Connect>)
    requires Inv(s) && Mirrors(s, u, h) && c.op.Assign? && Step(s, c, s') && c.op.user != u
    ensures Mirrors(s', u, h)
  {
    var Assign(v, session, ext, info, now) := c.op;
    var r :| AssignStep(s, v, session, ext, info, now, c.faults, s', r);
    AssignLeavesOthers(s, v, session, ext, info, now, c.faults, s', r, u);
    var change := AssignShape(s, v, session, ext, info, now, c.faults, s', r);
    UntouchedRows(s, u, s');
    ClearMirrors(s, u, h, s');
  }

  lemma RespectfulCreate(s: Store, c: Call, s': Store, u: int, h: seq<Connect>)
    requires Inv(s) && Mirrors(s, u, h) && c.op.Create? && Step(s, c, s') && c.op.user != u && s' != s
    ensures Mirrors(s', u, h)
  {
    var addrs, r := ManualCreates(s, c, s');
    CreateLeavesOthers(s, c.op.user, addrs, c.faults, s', r, u);
    ClearMirrors(s, u, h, s');
  }

  lemma CreateLeavesOthers(s: Store, v: int, addrs: seq<Prefix>, faults: set<Fault>,
                             s': Store, r: Result<int, Error>, u: int)
    requires Inv(s) && CreateStep(s, v, "", "", addrs, faults, s', r) && s' != s && v != u && u in s.templates
    ensures OnlyClears(s, u, s')
  {
    var n := CreatedDevice(s, v, addrs, faults, s', r);
    InsertLeavesOthers(s, NewDevice(v, "", ""), addrs[..n], u);
  }

  lemma InsertLeavesOthers(s: Store, d: Device, addrs: seq<Prefix>, u: int)
    requires Inv(s) && d.owner != u && u in s.templates
    ensures OnlyClears(s, u, Inserted(s, d, addrs))
  {
    var s' := Inserted(s, d, addrs);
    assert forall id :: id in Rows(s, u) ==> id != s.nextID;
    assert Rows(s', u) == Rows(s, u);
    UntouchedRows(s, u, s');
  }

  lemma RespectfulResync(s: Store, c: Call, s': Store, u: int, h: seq<Connect>)
    requires Inv(s) && Mirrors(s, u, h) && c.op.ResyncTemplate? && Step(s, c, s') && Rows(s', u) == Rows(s, u)
    ensures Mirrors(s', u, h)
  {
    var r :| ResyncStep(s, c.op.user, c.faults, s', r);
    ResyncLeavesRest(s, c.op.user, c.faults, s', r, u);
    UntouchedRows(s, u, s');
    ClearMirrors(s, u, h, s');
  }

  lemma ResyncLeavesRest(s: Store, v: int, faults: set<Fault>, s': Store, r: Result<Response, Error>, u: int)
    requires ResyncStep(s, v, faults, s', r)
    ensures s'.limit == s.limit && s'.templates == s.templates
    ensures Rows(s', u) <= Rows(s, u) && forall id :: id in Rows(s', u) ==> s'.devices[id] == s.devices[id]
  {
    if r.Ok? {
      var ids, outcomes :|
        ListsRows(s, v, ids) && ResyncAll(s, ids, s.templates[v], s', outcomes) && r.value == Summary(outcomes);
      RunFrame(s, ids, s.templates[v], s', outcomes);
      RestOfRows(s, s', u);
    }
  }

  lemma RestOfRows(s: Store, s': Store, u: int)
    requires forall id :: id in s'.devices ==> id in s.devices && s'.devices[id] == s.devices[id]
    ensures Rows(s', u) <= Rows(s, u) && forall id :: id in Rows(s', u) ==> s'.devices[id] == s.devices[id]
  {
    forall id | id in Rows(s', u) ensures id in Rows(s, u) {
      assert id in s'.devices;
    }
  }

  lemma RespectfulClear(s: Store, c: Call, s': Store, u: int, h: seq<Connect>)
    requires Mirrors(s, u, h) && Step(s, c, s') && Respects(s, c, s', u)
    requires c.op.ExpireSessions? || c.op.ClearDeviceSession? || c.op.ClearUserSessions? || c.op.ClearCertSessions?
    ensures Mirrors(s', u, h)
  {
    if s' != s {
      var ids := Matching(s, c.op);
      if !c.op.ClearDeviceSession? {
        SweepsClearOldest(s, c.op, u, h);
      }
      ClearMirrorsExactly(s, u, h, ids);
      assert s' == ClearSessions(s, ids);
    }
  }

  lemma RespectfulEnforce(s: Store, c: Call, s': Store, u: int, h: seq<Connect>)
    requires Inv(s) && Mirrors(s, u, h) && c.op.EnforceLimit? && Step(s, c, s')
    ensures Mirrors(s', u, h)
  {
    HeldSize(s, u, h);
    var r :| EnforceStep(s, c.faults, s', r);
    EnforceLeavesUsersWithinLimit(s, c.faults, s', r, u);
    ClearMirrors(s, u, h, s');
  }

  lemma RespectfulDelete(s: Store, c: Call, s': Store, u: int, h: seq<Connect>)
    requires Mirrors(s, u, h) && c.op.Delete? && Step(s, c, s') && !Owns(s, u, c.op.id)
    ensures Mirrors(s', u, h)
  {
    assert forall j :: Owns(s, u, j) ==> j != c.op.id;
    assert Rows(s', u) == Rows(s, u);
    UntouchedRows(s, u, s');
    ClearMirrors(s, u, h, s');
  }

  lemma RespectfulTemplate(s: Store, c: Call, s': Store, u: int, h: seq<Connect>)
    requires Mirrors(s, u, h) && c.op.SetTemplate? && Step(s, c, s')
    ensures Mirrors(s', u, h)
  {
    assert Rows(s', u) == Rows(s, u);
    UntouchedRows(s, u, s');
    ClearMirrors(s, u, h, s');
  }

  lemma RespectfulStep(s: Store, c: Call, s': Store, u: int, h: seq<Connect>)
    requires Inv(s) && Mirrors(s, u, h) && Step(s, c, s') && Respects(s, c, s', u)
    ensures Mirrors(s', u, h)
  {
    if s' != s {
      match c.op
      case Assign(_, _, _, _, _) => RespectfulAssign(s, c, s', u, h);
      case Create(_, _, _) => RespectfulCreate(s, c, s', u, h);
      case ResyncTemplate(_) => RespectfulResync(s, c, s', u, h);
      case EnforceLimit => RespectfulEnforce(s, c, s', u, h);
      case Delete(_) => RespectfulDelete(s, c, s', u, h);
      case SetTemplate(_, _) => RespectfulTemplate(s, c, s', u, h);
      case _ => RespectfulClear(s, c, s', u, h);
    }
  }

  lemma EnforceLeavesUsersWithinLimit(s: Store, faults: set<Fault>, s': Store, r: Result<(), Error>, u: int)
    requires Inv(s) && EnforceStep(s, faults, s', r) && u in s.templates && |Rows(s, u)| <= Capacity(s)
    ensures OnlyClears(s, u, s')
  {
    if r.Ok? {
      var ids :| s' == Minus(s, ids) && Enforced(s, faults, ids);
      WithinLimitLosesNothing(s, faults, u, ids * Rows(s, u));
      forall id | Owns(s, u, id) ensures id !in ids {
        assert id in Rows(s, u) && id !in ids * Rows(s, u);
      }
    }
  }

  lemma WithinLimitLosesNothing(s: Store, faults: set<Fault>, u: int, deleted: set<int>)
    requires DeletedFor(s, u, faults, deleted) && |Rows(s, u)| <= Capacity(s)
    ensures deleted == {}
  {
    if ListDevicesOf(u) !in faults {
      var rows: seq<Row> :| ListsDevices(s, u, rows) && deleted == Deletable(rows, Excess(|rows|, s.limit), faults);
      FirstRows(s, u, rows, |rows|);
      AllRows(s, u, rows);
      assert Excess(|rows|, s.limit) == 0;
    }
  }

  // ---- Calls that break the correspondence ----

  lemma FailedAssignBreaks(s: Store, c: Call, s': Store, u: int, h: seq<Connect>)
    requires c.op.Assign? && c.op.user == u && Step(s, c, s') && s' != s && !Connects(s, c, s', u)
    ensures !Mirrors(s', u, h)
  {
    var Assign(_, session, ext, info, now) := c.op;
    ConnectsOrFails(s, c, s', u);
    var e :| AssignStep(s, u, session, ext, info, now, c.faults, s', Err(e));
    var key := EffectiveID(ext);
    var addrs, n :| Allocated(s, s.templates[u], addrs) && 0 <= n <= |addrs| &&
      s' == Inserted(s, NewDevice(u, key, info), addrs[..n]);
    InsertBreaks(s, u, h, NewDevice(u, key, info), addrs[..n]);
  }

  lemma ConnectsOrFails(s: Store, c: Call, s': Store, u: int)
    requires c.op.Assign? && c.op.user == u && Step(s, c, s')
    ensures Connects(s, c, s', u) ||
      exists e :: AssignStep(s, u, c.op.session, c.op.ext, c.op.info, c.op.now, c.faults, s', Err(e))
  {
    var r :| AssignStep(s, u, c.op.session, c.op.ext, c.op.info, c.op.now, c.faults, s', r);
    match r
    case Ok(key) => assert AssignStep(s, u, c.op.session, c.op.ext, c.op.info, c.op.now, c.faults, s', Ok(key));
    case Err(e) => assert AssignStep(s, u, c.op.session, c.op.ext, c.op.info, c.op.now, c.faults, s', Err(e));
  }

  lemma CreateBreaks(s: Store, c: Call, s': Store, u: int, h: seq<Connect>)
    requires c.op.Create? && c.op.user == u && Step(s, c, s') && s' != s
    ensures !Mirrors(s', u, h)
  {
    var addrs, r := ManualCreates(s, c, s');
    var n := CreatedDevice(s, u, addrs, c.faults, s', r);
    InsertBreaks(s, u, h, NewDevice(u, "", ""), addrs[..n]);
  }

  lemma DeleteBreaks(s: Store, c: Call, s': Store, u: int, h: seq<Connect>)
    requires Inv(s) && Mirrors(s, u, h) && c.op.Delete? && Step(s, c, s') && Owns(s, u, c.op.id) && s' != s
    ensures !Mirrors(s', u, h)
  {
    StepKeeps(s, c, s');
    assert Rows(s', u) == Rows(s, u) - {c.op.id};
    RemovalBreaks(s, u, h, s');
  }

  lemma ResyncBreaks(s: Store, c: Call, s': Store, u: int, h: seq<Connect>)
    requires Inv(s) && Mirrors(s, u, h) && c.op.ResyncTemplate? && Step(s, c, s') && Rows(s', u) != Rows(s, u)
    ensures !Mirrors(s', u, h)
  {
    StepKeeps(s, c, s');
    var r :| ResyncStep(s, c.op.user, c.faults, s', r);
    ResyncLeavesRest(s, c.op.user, c.faults, s', r, u);
    RemovalBreaks(s, u, h, s');
  }

  lemma ClearBreaks(s: Store, c: Call, s': Store, u: int, h: seq<Connect>)
    requires Mirrors(s, u, h) && c.op.ClearDeviceSession? && Step(s, c, s') && !Respects(s, c, s', u)
    ensures !Mirrors(s', u, h)
  {
    assert Matching(s, c.op) == {c.op.id};
    ClearMirrorsExactly(s, u, h, {c.op.id});
  }

  lemma DisrespectfulStep(s: Store, c: Call, s': Store, u: int, h: seq<Connect>)
    requires Inv(s) && Mirrors(s, u, h) && Step(s, c, s') && !Connects(s, c, s', u) && !Respects(s, c, s', u)
    ensures !Mirrors(s', u, h)
  {
    match c.op
    case Assign(_, _, _, _, _) => FailedAssignBreaks(s, c, s', u, h);
    case Create(_, _, _) => CreateBreaks(s, c, s', u, h);
    case Delete(_) => DeleteBreaks(s, c, s', u, h);
    case ResyncTemplate(_) => ResyncBreaks(s, c, s', u, h);
    case ClearDeviceSession(_) => ClearBreaks(s, c, s', u, h);
  }

  /** Apart from the user's own connects, exactly these calls leave the user's slots
      mirroring the cache. */
  lemma RespectsExactly(s: Store, c: Call, s': Store, u: int, h: seq<Connect>)
    requires Inv(s) && Mirrors(s, u, h) && Step(s, c, s') && !Connects(s, c, s', u)
    ensures Mirrors(s', u, h) <==> Respects(s, c, s', u)
  {
    if Respects(s, c, s', u) {
      RespectfulStep(s, c, s', u, h);
    } else {
      DisrespectfulStep(s, c, s', u, h);
    }
  }

  // ---- The refinement ----

  /** One call in the life of the user's cache: a successful connect, which the
      history records, or a call that leaves the cache alone. */
  ghost predicate CacheStep(s: Store, c: Call, s': Store, u: int, entry: Option<Connect>) {
    match entry
    case Some(e) =>
      c.op.Assign? && c.op.user == u && e.time == c.op.now &&
      AssignStep(s, u, c.op.session, c.op.ext, c.op.info, c.op.now, c.faults, s', Ok(e.key))
    case None => Step(s, c, s') && Respects(s, c, s', u)
  }

  /** The connects among the first i entries. */
  function History(entries: seq<Option<Connect>>, i: nat): seq<Connect>
    requires i <= |entries|
  {
    if i == 0 then []
    else History(entries, i - 1) + Recorded(entries[i - 1])
  }

  /** A run of n calls from states[0]; every shorter prefix is a run as well. */
  ghost predicate CacheRun(states: seq<Store>, calls: seq<Call>, entries: seq<Option<Connect>>, u: int, n: nat)
    requires n < |states| && n <= |calls| && n <= |entries|
  {
    n == 0 ||
    (&& CacheRun(states, calls, entries, u, n - 1)
     && CacheStep(states[n - 1], calls[n - 1], states[n], u, entries[n - 1])
     && (entries[n - 1].Some? ==> Later(History(entries, n - 1), entries[n - 1].value.time)))
  }

  lemma StartsEmpty(s: Store, u: int)
    requires Inv(s) && Rows(s, u) == {} && u in s.templates
    ensures Mirrors(s, u, [])
  {
    assert forall id :: Owns(s, u, id) ==> id in Rows(s, u);
    HeldCount(s, u);
    assert Seen([]) == {};
  }

  lemma {:induction false} RunMirrors(states: seq<Store>, calls: seq<Call>,
                                       entries: seq<Option<Connect>>, u: int, n: nat)
    requires n < |states| && n <= |calls| && n <= |entries| && CacheRun(states, calls, entries, u, n)
    requires Inv(states[0]) && Rows(states[0], u) == {} && u in states[0].templates
    ensures Inv(states[n]) && states[n].limit == states[0].limit && Mirrors(states[n], u, History(entries, n))
  {
    if n == 0 {
      StartsEmpty(states[0], u);
    } else {
      RunMirrors(states, calls, entries, u, n - 1);
      CacheStepMirrors(states[n - 1], calls[n - 1], states[n], u, entries[n - 1], History(entries, n - 1));
    }
  }

  function Recorded(entry: Option<Connect>): seq<Connect> {
    match entry case None => [] case Some(e) => [e]
  }

  lemma CacheStepMirrors(s: Store, c: Call, s': Store, u: int, entry: Option<Connect>, h: seq<Connect>)
    requires Inv(s) && Mirrors(s, u, h) && CacheStep(s, c, s', u, entry)
    requires entry.Some? ==> Later(h, entry.value.time)
    ensures Inv(s') && s'.limit == s.limit && Mirrors(s', u, h + Recorded(entry))
  {
    StepKeeps(s, c, s');
    match entry {
      case Some(e) =>
        ConnectMirrors(s, u, h, c.op.session, c.op.ext, c.op.info, c.op.now, c.faults, s', e.key);
      case None =>
        RespectfulStep(s, c, s', u, h);
        assert h + [] == h;
    }
  }

  /** Starting without devices, the external IDs a user's slots hold are always those of
      a least-recently-used cache with the limit as its capacity: the most recently
      connected distinct IDs, as many as the limit allows. */
  lemma SlotsAreLruCache(states: seq<Store>, calls: seq<Call>, entries: seq<Option<Connect>>, u: int, n: nat)
    requires n < |states| && n <= |calls| && n <= |entries| && CacheRun(states, calls, entries, u, n)
    requires Inv(states[0]) && Rows(states[0], u) == {} && u in states[0].templates
    ensures Held(states[n], u) == Keys(Cache(History(entries, n), Capacity(states[0])))
    ensures MostRecent(History(entries, n), Capacity(states[0]), Held(states[n], u))
    ensures |Rows(states[n], u)| == |Held(states[n], u)|
  {
    RunMirrors(states, calls, entries, u, n);
    var h := History(entries, n);
    CacheIsMostRecent(h, Capacity(states[0]));
    MostRecentIsUnique(h, Capacity(states[0]), Held(states[n], u), Keys(Cache(h, Capacity(states[0]))));
    HeldSize(states[n], u, h);
  }

  // ---- Clearing out of turn ----

  /** What goes wrong when one session is cleared before an older one: with every slot
      active and the limit reached, the next new ID replaces the cleared device's, and what is
      held is no longer the most recent. */
  lemma ClearedNewerIsEvicted(s: Store, u: int, h: seq<Connect>, id: int, older: int, c: Connect, slot: Slot)
    requires Inv(s) && Mirrors(s, u, h) && Later(h, c.time) && Inactive(s, u) == {} && |Rows(s, u)| >= s.limit
    requires Owns(s, u, id) && Owns(s, u, older) && ConnectedBefore(s.devices[older], s.devices[id])
    requires c.key != "" && !HasKey(s, u, c.key)
    ensures Chosen(ClearSessions(s, {id}), u, c.key, slot) <==> slot == Overwrite(id)
    ensures !MostRecent(h + [c], Capacity(s), Held(s, u) - {s.devices[id].externalID} + {c.key})
  {
    assert forall j :: Owns(s, u, j) ==> Times(s.devices[j], h);
    OnlyClearedIsInactive(s, u, id, c.key);
    NotMostRecent(s, u, h, id, older, c);
  }

  lemma OnlyClearedIsInactive(s: Store, u: int, id: int, key: string)
    requires u in s.templates && Inactive(s, u) == {} && |Rows(s, u)| >= s.limit && Owns(s, u, id)
    requires !HasKey(s, u, key) && forall j :: Owns(s, u, j) ==> s.devices[j].externalID != ""
    ensures forall slot :: Chosen(ClearSessions(s, {id}), u, key, slot) <==> slot == Overwrite(id)
  {
    var s' := ClearSessions(s, {id});
    assert Rows(s', u) == Rows(s, u);
    assert Inactive(s', u) == {id} by {
      forall j | j in Inactive(s', u) ensures j == id {
        assert j !in Inactive(s, u);
      }
    }
    assert !HasKey(s', u, key) && !HasKey(s', u, "") by {
      forall j | j in s'.devices ensures !Holds(s', u, key, j) && !Holds(s', u, "", j) {
        assert !Holds(s, u, key, j) && !Holds(s, u, "", j);
      }
    }
  }

  lemma NotMostRecent(s: Store, u: int, h: seq<Connect>, id: int, older: int, c: Connect)
    requires Mirrors(s, u, h) && Later(h, c.time) && !HasKey(s, u, c.key)
    requires Owns(s, u, id) && Owns(s, u, older) && ConnectedBefore(s.devices[older], s.devices[id])
    ensures !MostRecent(h + [c], Capacity(s), Held(s, u) - {s.devices[id].externalID} + {c.key})
  {
    var gone, kept := s.devices[id].externalID, s.devices[older].externalID;
    assert Times(s.devices[id], h) && Times(s.devices[older], h);
    assert !Holds(s, u, c.key, id) && !Holds(s, u, c.key, older);
    LastSnoc(h, c);
    assert kept in Held(s, u) && Last(h + [c], kept) < Last(h + [c], gone);
  }

  /** A user with limit 2 whose device "a" connected at time 1 and "b" at time 2. */
  function TwoSlots(session: string): Store {
    Store(2, {1}, {}, map[1 := []], [],
      map[1 := Device(1, "a", "x", Some(1), None), 2 := Device(1, "b", session, Some(2), None)],
      map[1 := [], 2 := []], 3)
  }

  lemma TwoSlotsInv()
    ensures Inv(TwoSlots("y"))
  {
    var s := TwoSlots("y");
    assert s.devices[1].externalID == "a" && s.devices[2].externalID == "b";
  }

  lemma TwoSeen(h: seq<Connect>)
    requires h == [Connect("a", 1), Connect("b", 2)]
    ensures Seen(h) == {"a", "b"} && Last(h, "a") == 1 && Last(h, "b") == 2
  {
    assert h[..1] == [Connect("a", 1)];
    assert h[0].key == "a" && h[1].key == "b";
  }

  lemma TwoSlotsMirror(h: seq<Connect>)
    requires h == [Connect("a", 1), Connect("b", 2)]
    ensures Mirrors(TwoSlots("y"), 1, h)
  {
    var s := TwoSlots("y");
    TwoSeen(h);
    assert s.devices[1].externalID == "a" && s.devices[2].externalID == "b";
    assert Held(s, 1) == {"a", "b"};
    assert MostRecent(h, 2, Seen(h));
    assert Times(s.devices[1], h) && Times(s.devices[2], h);
    assert forall id :: Owns(s, 1, id) ==> id == 1 || id == 2;
  }

  lemma TwoSlotsCleared()
    ensures ClearSessions(TwoSlots("y"), {2}) == TwoSlots("")
    ensures Step(TwoSlots("y"), Call(ClearDeviceSession(2), {}), TwoSlots(""))
  {
    var s, c := TwoSlots("y"), Call(ClearDeviceSession(2), {});
    assert TwoSlots("") == ClearSessions(s, {2});
    assert ClearStep(s, Matching(s, c.op), TwoSlots(""), true);
  }

  lemma NewestIsOnlyInactive(slot: Slot)
    ensures Chosen(TwoSlots(""), 1, "c", slot) <==> slot == Overwrite(2)
  {
    var s := TwoSlots("");
    assert s.devices[1].externalID == "a" && s.devices[2].externalID == "b";
    assert Rows(s, 1) == {1, 2} && Inactive(s, 1) == {2};
    assert forall id :: id in s.devices ==> id == 1 || id == 2;
    assert forall key, id :: Holds(s, 1, key, id) ==> key == "a" || key == "b";
    assert NoneReusable(s, 1, "c");
  }

  /** A concrete call that breaks the correspondence: here the next new ID, "c", replaces
      "b" although "a" connected before it. */
  lemma ClearingOneDeviceEvictsNewest(slot: Slot)
    ensures Inv(TwoSlots("y")) && Mirrors(TwoSlots("y"), 1, [Connect("a", 1), Connect("b", 2)])
    ensures Step(TwoSlots("y"), Call(ClearDeviceSession(2), {}), TwoSlots(""))
    ensures Chosen(TwoSlots(""), 1, "c", slot) <==> slot == Overwrite(2)
    ensures TwoSlots("").devices[2].externalID == "b"
  {
    TwoSlotsInv();
    TwoSlotsMirror([Connect("a", 1), Connect("b", 2)]);
    TwoSlotsCleared();
    NewestIsOnlyInactive(slot);
  }
}
