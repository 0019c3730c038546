/** What a resync does to devices and their addresses, said of pools, addresses
    and rows alone. */
module ResyncLaws {
  import opened Results
  import opened Octets
  import opened Masks
  import opened AddressPools
  import opened Tables
  import opened Resync
  import RowLaws

  /** The address lies in the pool and has its mask. */
  predicate Under(a: Prefix, pool: AddressPool) {
    pool.start <= a.addr <= pool.end && a.bits == pool.mask
  }

  ghost predicate HasOneIn(s: Store, id: int, pool: AddressPool)
    requires id in s.addresses
  {
    exists i :: 0 <= i < |s.addresses[id]| && Under(s.addresses[id][i], pool)
  }

  /** No address of the pool is left. */
  ghost predicate RunOut(s: Store, pool: AddressPool) {
    RowLaws.Buildable(pool) && forall a: Addr :: !RowLaws.FreeIn(s, pool, a)
  }

  /** An address is matched to no pool exactly when it lies in none, and otherwise to the
      first of the pools it lies in that have the fewest addresses. */
  lemma MatchedToSmallest(addr: Prefix, pools: seq<AddressPool>)
    requires ValidIDs(pools)
    ensures PoolFor(addr, pools) == -1 <==> forall k :: 0 <= k < |pools| ==> !Under(addr, pools[k])
    ensures PoolFor(addr, pools) != -1 ==> exists k ::
      && 0 <= k < |pools| && Under(addr, pools[k]) && PoolFor(addr, pools) == pools[k].id
      && forall j :: 0 <= j < |pools| && Under(addr, pools[j]) ==>
           pools[k].end - pools[k].start <= pools[j].end - pools[j].start
           && (j < k ==> pools[k].end - pools[k].start < pools[j].end - pools[j].start)
  {
    PoolForIsBest(addr, pools);
    forall k | 0 <= k < |pools| ensures Under(addr, pools[k]) <==> Belongs(addr, pools[k]) {
    }
    if !NoPool(addr, pools, |pools|) {
      var k :| BestPoolAt(addr, pools, |pools|, k) && PoolFor(addr, pools) == pools[k].id;
      assert Under(addr, pools[k]);
    }
  }

  lemma HasOneIsListed(s: Store, id: int, pool: AddressPool, current: seq<Prefix>)
    requires Listed(s, id, current)
    ensures HasOneIn(s, id, pool) <==> exists a :: a in current && Belongs(a, pool)
  {
    if i :| 0 <= i < |s.addresses[id]| && Under(s.addresses[id][i], pool) {
      assert s.addresses[id][i] in multiset(s.addresses[id]);
      assert s.addresses[id][i] in current && Belongs(s.addresses[id][i], pool);
    }
    if a :| a in current && Belongs(a, pool) {
      assert a in multiset(current);
      var i :| 0 <= i < |s.addresses[id]| && s.addresses[id][i] == a;
      assert Under(s.addresses[id][i], pool);
    }
  }

  // ---- One device ----

  /** A device is deleted only because some pool in which it has no address has none left. */
  lemma DeletedOnlyWhenRunOut(s: Store, id: int, pools: seq<AddressPool>, s': Store) returns (p: AddressPool)
    requires ValidIDs(pools) && Disjoint(pools) && ResyncDevice(s, id, pools, s', Deleted)
    ensures id in s.addresses && p in pools && RunOut(s, p) && !HasOneIn(s, id, p)
  {
    var current :| Listed(s, id, current) && ResyncListed(s, id, pools, current, s', Deleted);
    p :| p in StillUncovered(current, pools) && NoneFree(s, p);
    UncoveredMeans(pools, Categorize(current, pools).Covered());
    UncoveredHadNone(current, pools, p);
    HasOneIsListed(s, id, p, current);
    RowLaws.NoneIsFree(s, p);
  }

  /** What a device that is not deleted has for a pool: an address it had there before, or
      the least free one if it had none. */
  ghost predicate Served(s: Store, id: int, pool: AddressPool, a: Prefix)
    requires id in s.addresses
  {
    && Under(a, pool)
    && if HasOneIn(s, id, pool) then a in s.addresses[id]
       else RowLaws.Buildable(pool) && RowLaws.LeastFreeIn(s, pool, a)
  }

  /** A device that is neither deleted nor failed ends with one address for each pool, and
      no other. */
  lemma OneAddressPerPool(s: Store, id: int, pools: seq<AddressPool>, s': Store, o: Outcome)
    requires ValidIDs(pools) && Disjoint(pools) && ResyncDevice(s, id, pools, s', o) && (o == Updated || o == Unchanged)
    ensures id in s.addresses && id in s'.addresses && |s'.addresses[id]| == |pools|
    ensures forall p :: p in pools ==> exists a :: a in s'.addresses[id] && Served(s, id, p, a)
  {
    ResyncedIsSynced(s, id, pools, s', o);
    SyncedHasAsMany(s'.addresses[id], pools);
    var current :| Listed(s, id, current) && ResyncListed(s, id, pools, current, s', o);
    forall p | p in pools ensures exists a :: a in s'.addresses[id] && Served(s, id, p, a) {
      var a := AddressFor(s'.addresses[id], pools, p);
      if o == Updated {
        UpdatedServes(s, id, pools, current, s', p, a);
      } else {
        var i :| 0 <= i < |s.addresses[id]| && s.addresses[id][i] == a;
        assert HasOneIn(s, id, p);
      }
    }
  }

  lemma AddressFor(addrs: seq<Prefix>, pools: seq<AddressPool>, p: AddressPool) returns (a: Prefix)
    requires Synced(addrs, pools) && ValidIDs(pools) && p in pools
    ensures a in addrs && Under(a, p)
  {
    var ids :| Matched(addrs, ids, pools) && forall p :: p in pools ==> p.id in ids;
    var i :| 0 <= i < |ids| && ids[i] == p.id;
    CoversMeans(pools, ids[i], addrs[i]);
    SameID(pools);
    a := addrs[i];
  }

  lemma UpdatedServes(s: Store, id: int, pools: seq<AddressPool>, current: seq<Prefix>,
                      s': Store, p: AddressPool, a: Prefix)
    requires ValidIDs(pools) && Disjoint(pools) && p in pools
    requires Listed(s, id, current) && ResyncListed(s, id, pools, current, s', Updated)
    requires id in s'.addresses && a in s'.addresses[id] && Under(a, p)
    ensures Served(s, id, p, a)
  {
    var keep, rest := Categorize(current, pools).keep, StillUncovered(current, pools);
    var add :| Allocated(s, rest, add) && s' == s.(addresses := s.addresses[id := keep + add]);
    UncoveredHadNone(current, pools, p);
    UncoveredMeans(pools, Categorize(current, pools).Covered());
    HasOneIsListed(s, id, p, current);
    if a in keep {
      KeptIsSubsequence(current, pools);
      SubsequenceLength(keep, current);
      assert a in multiset(keep);
      assert a in multiset(s.addresses[id]);
      var i :| 0 <= i < |s.addresses[id]| && s.addresses[id][i] == a;
      assert HasOneIn(s, id, p);
    } else {
      var i :| 0 <= i < |add| && add[i] == a;
      assert FirstFree(s, rest[i], a);
      RowLaws.ChosenIsLeastFree(s, rest[i], a);
      assert rest[i] in pools;
      OnePoolPerAddress(a, pools);
      assert Belongs(a, p) && Belongs(a, rest[i]);
    }
  }

  lemma SyncedHasAsMany(addrs: seq<Prefix>, pools: seq<AddressPool>)
    requires Synced(addrs, pools) && ValidIDs(pools)
    ensures |addrs| == |pools|
  {
    var ids :| Matched(addrs, ids, pools) && forall p :: p in pools ==> p.id in ids;
    forall i | 0 <= i < |ids| ensures ids[i] in IDs(pools) {
      CoversMeans(pools, ids[i], addrs[i]);
      var p :| p in pools && p.id == ids[i];
      var k :| 0 <= k < |pools| && pools[k] == p;
      assert IDs(pools)[k] == ids[i];
    }
    forall k | 0 <= k < |pools| ensures IDs(pools)[k] in ids {
      assert pools[k] in pools;
    }
    DistinctSameElements(ids, IDs(pools));
  }

  function ElementsOf(xs: seq<int>): set<int> {
    set x | x in xs
  }

  lemma {:induction false} DistinctCount(xs: seq<int>)
    requires forall i, j :: 0 <= i < j < |xs| ==> xs[i] != xs[j]
    ensures |ElementsOf(xs)| == |xs|
  {
    if xs != [] {
      var n := |xs| - 1;
      DistinctCount(xs[..n]);
      assert ElementsOf(xs) == ElementsOf(xs[..n]) + {xs[n]};
    }
  }

  lemma DistinctSameElements(xs: seq<int>, ys: seq<int>)
    requires forall i, j :: 0 <= i < j < |xs| ==> xs[i] != xs[j]
    requires forall i, j :: 0 <= i < j < |ys| ==> ys[i] != ys[j]
    requires forall i :: 0 <= i < |xs| ==> xs[i] in ys
    requires forall i :: 0 <= i < |ys| ==> ys[i] in xs
    ensures |xs| == |ys|
  {
    DistinctCount(xs);
    DistinctCount(ys);
    assert ElementsOf(xs) == ElementsOf(ys);
  }

  lemma NotInUse(s: Store, a: Addr)
    requires !InUse(s, a)
    ensures forall id, i :: id in s.addresses && 0 <= i < |s.addresses[id]| ==> s.addresses[id][i].addr != a
  {
  }

  /** A pass reported as an update changes the device's addresses, one reported as
      unchanged or failed changes nothing, and no pass touches anything else. */
  lemma PassChanges(s: Store, id: int, pools: seq<AddressPool>, s': Store, o: Outcome)
    requires ResyncDevice(s, id, pools, s', o)
    ensures o == Updated ==> id in s.addresses && id in s'.addresses && s'.addresses[id] != s.addresses[id]
    ensures o == Updated ==> s' == s.(addresses := s.addresses[id := s'.addresses[id]])
    ensures o == Unchanged || o == Failed ==> s' == s
    ensures o == Deleted ==> s' == s.(devices := s.devices - {id}, addresses := s.addresses - {id})
  {
    var current :| Listed(s, id, current) && ResyncListed(s, id, pools, current, s', o);
    if o == Updated {
      var keep, rest := Categorize(current, pools).keep, StillUncovered(current, pools);
      var add: seq<Prefix> :| Allocated(s, rest, add) && HasAddressChanges(current, keep, add)
        && s' == s.(addresses := s.addresses[id := keep + add]);
      if add != [] {
        AllocatedBelong(s, rest, add);
        assert (keep + add)[|keep|] == add[0];
        NotInUse(s, add[0].addr);
      } else {
        assert |multiset(current)| == |current| && |multiset(s.addresses[id])| == |s.addresses[id]|;
      }
    }
  }

  // ---- All devices of a template ----

  /** Devices that are not listed stay as they were. */
  lemma {:induction false} OthersStay(s: Store, ids: seq<int>, pools: seq<AddressPool>, s': Store,
                                      outcomes: seq<Outcome>, d: int)
    requires ResyncAll(s, ids, pools, s', outcomes) && d !in ids
    ensures d in s.devices <==> d in s'.devices
    ensures d in s.addresses <==> d in s'.addresses
    ensures d in s.addresses ==> s'.addresses[d] == s.addresses[d]
  {
    if ids != [] {
      var n := |ids| - 1;
      var m :| ResyncAll(s, ids[..n], pools, m, outcomes[..n]) && ResyncDevice(m, ids[n], pools, s', outcomes[n]);
      OthersStay(s, ids[..n], pools, m, outcomes[..n], d);
      PassChanges(m, ids[n], pools, s', outcomes[n]);
    }
  }

  /** A run deletes a device only if, when its turn comes, some pool in which it has no
      address has none left. */
  lemma RunDeletesOnlyWhenRunOut(s: Store, u: int, faults: set<Fault>, s': Store, response: Response, d: int)
    returns (before: seq<int>, outcomes: seq<Outcome>, m: Store, p: AddressPool)
    requires s.Valid() && ResyncStep(s, u, faults, s', Ok(response)) && Disjoint(s.templates[u])
    requires d in s.devices && d !in s'.devices
    ensures s.devices[d].owner == u && d !in before && ResyncAll(s, before, s.templates[u], m, outcomes)
    ensures d in m.addresses && m.addresses[d] == s.addresses[d]
    ensures p in s.templates[u] && RunOut(m, p) && !HasOneIn(m, d, p)
  {
    var pools := s.templates[u];
    var ids, all :| ListsRows(s, u, ids) && ResyncAll(s, ids, pools, s', all) && response == Summary(all);
    if d !in ids {
      OthersStay(s, ids, pools, s', all, d);
    }
    before, outcomes, m, p := TurnOf(s, ids, pools, s', all, d);
    OthersStay(s, before, pools, m, outcomes, d);
  }

  lemma {:induction false} TurnOf(s: Store, ids: seq<int>, pools: seq<AddressPool>,
                                  s': Store, all: seq<Outcome>, d: int)
    returns (before: seq<int>, outcomes: seq<Outcome>, m: Store, p: AddressPool)
    requires ValidIDs(pools) && Disjoint(pools) && ResyncAll(s, ids, pools, s', all)
    requires d in s.devices && d !in s'.devices && d in ids
    requires forall i, j :: 0 <= i < j < |ids| ==> ids[i] != ids[j]
    ensures d !in before && ResyncAll(s, before, pools, m, outcomes)
    ensures d in m.addresses && p in pools && RunOut(m, p) && !HasOneIn(m, d, p)
  {
    var n := |ids| - 1;
    var t :| ResyncAll(s, ids[..n], pools, t, all[..n]) && ResyncDevice(t, ids[n], pools, s', all[n]);
    PassChanges(t, ids[n], pools, s', all[n]);
    if d == ids[n] {
      OthersStay(s, ids[..n], pools, t, all[..n], d);
      before, outcomes, m := ids[..n], all[..n], t;
      p := DeletedOnlyWhenRunOut(t, d, pools, s');
    } else {
      before, outcomes, m, p := TurnOf(s, ids[..n], pools, t, all[..n], d);
    }
  }

  // ---- The response ----

  function Lost(s: Store, s': Store, ids: seq<int>): set<int> {
    set d | d in ids && d in s.devices && d !in s'.devices
  }

  function Readdressed(s: Store, s': Store, ids: seq<int>): set<int> {
    set d | d in ids && d in s.addresses && d in s'.addresses && s'.addresses[d] != s.addresses[d]
  }

  lemma {:induction false} CountsAreRight(s: Store, ids: seq<int>, pools: seq<AddressPool>,
                                          s': Store, outcomes: seq<Outcome>)
    requires ResyncAll(s, ids, pools, s', outcomes)
    requires forall i :: 0 <= i < |ids| ==> ids[i] in s.devices && ids[i] in s.addresses
    requires forall i, j :: 0 <= i < j < |ids| ==> ids[i] != ids[j]
    ensures Count(outcomes, Deleted) == |Lost(s, s', ids)|
    ensures Count(outcomes, Updated) == |Readdressed(s, s', ids)|
  {
    if ids != [] {
      var n := |ids| - 1;
      var m :| ResyncAll(s, ids[..n], pools, m, outcomes[..n]) && ResyncDevice(m, ids[n], pools, s', outcomes[n]);
      CountsAreRight(s, ids[..n], pools, m, outcomes[..n]);
      OneMoreCount(s, ids, pools, m, s', outcomes);
    }
  }

  lemma OneMoreCount(s: Store, ids: seq<int>, pools: seq<AddressPool>, m: Store, s': Store, outcomes: seq<Outcome>)
    requires ids != [] && |outcomes| == |ids| && ids[|ids| - 1] !in ids[..|ids| - 1]
    requires ids[|ids| - 1] in s.devices && ids[|ids| - 1] in s.addresses
    requires ResyncAll(s, ids[..|ids| - 1], pools, m, outcomes[..|ids| - 1])
    requires ResyncDevice(m, ids[|ids| - 1], pools, s', outcomes[|ids| - 1])
    ensures var n := |ids| - 1;
      && |Lost(s, s', ids)| == |Lost(s, m, ids[..n])| + (if outcomes[n] == Deleted then 1 else 0)
      && |Readdressed(s, s', ids)| == |Readdressed(s, m, ids[..n])| + (if outcomes[n] == Updated then 1 else 0)
  {
    var n := |ids| - 1;
    var o := outcomes[n];
    OthersStay(s, ids[..n], pools, m, outcomes[..n], ids[n]);
    PassChanges(m, ids[n], pools, s', o);
    OneMoreLost(s, m, s', ids, o);
    OneMoreReaddressed(s, m, s', ids, o);
  }

  lemma OneMoreLost(s: Store, m: Store, s': Store, ids: seq<int>, o: Outcome)
    requires ids != [] && ids[|ids| - 1] !in ids[..|ids| - 1]
    requires ids[|ids| - 1] in s.devices && ids[|ids| - 1] in m.devices
    requires s'.devices == if o == Deleted then m.devices - {ids[|ids| - 1]} else m.devices
    ensures |Lost(s, s', ids)| == |Lost(s, m, ids[..|ids| - 1])| + if o == Deleted then 1 else 0
  {
    var n := |ids| - 1;
    assert ids == ids[..n] + [ids[n]];
    assert Lost(s, s', ids) == Lost(s, m, ids[..n]) + if o == Deleted then {ids[n]} else {};
  }

  lemma OneMoreReaddressed(s: Store, m: Store, s': Store, ids: seq<int>, o: Outcome)
    requires ids != [] && ids[|ids| - 1] !in ids[..|ids| - 1]
    requires var d := ids[|ids| - 1];
      && d in s.addresses && d in m.addresses && m.addresses[d] == s.addresses[d]
      && (o == Updated <==> d in s'.addresses && s'.addresses[d] != m.addresses[d])
      && (forall e :: e != d ==> (e in s'.addresses <==> e in m.addresses))
      && (forall e :: e != d && e in m.addresses ==> s'.addresses[e] == m.addresses[e])
    ensures |Readdressed(s, s', ids)| == |Readdressed(s, m, ids[..|ids| - 1])| + if o == Updated then 1 else 0
  {
    var n := |ids| - 1;
    assert ids == ids[..n] + [ids[n]];
    forall e
      ensures e in Readdressed(s, s', ids) <==> e in Readdressed(s, m, ids[..n]) || (e == ids[n] && o == Updated)
    {
    }
    assert Readdressed(s, s', ids) == Readdressed(s, m, ids[..n]) + (if o == Updated then {ids[n]} else {});
  }

  /** The user's devices that are gone, and those that are left with other addresses. */
  function LostOf(s: Store, u: int, s': Store): set<int> {
    set d | d in s.devices && s.devices[d].owner == u && d !in s'.devices
  }

  function ReaddressedOf(s: Store, u: int, s': Store): set<int>
    requires s.addresses.Keys == s.devices.Keys
  {
    set d | d in s.addresses && s.devices[d].owner == u && d in s'.addresses && s'.addresses[d] != s.addresses[d]
  }

  /** The response counts them. */
  lemma ResponseIsRight(s: Store, u: int, faults: set<Fault>, s': Store, response: Response)
    requires s.Valid() && ResyncStep(s, u, faults, s', Ok(response))
    ensures response.deleted == |LostOf(s, u, s')| && response.updated == |ReaddressedOf(s, u, s')|
  {
    var ids, outcomes :|
      ListsRows(s, u, ids) && ResyncAll(s, ids, s.templates[u], s', outcomes) && response == Summary(outcomes);
    ListedAreOwned(s, u, ids);
    CountsAreRight(s, ids, s.templates[u], s', outcomes);
    ListedAreCounted(s, u, s', ids);
  }

  lemma ListedAreCounted(s: Store, u: int, s': Store, ids: seq<int>)
    requires s.addresses.Keys == s.devices.Keys
    requires forall d :: d in ids <==> d in s.devices && s.devices[d].owner == u
    ensures LostOf(s, u, s') == Lost(s, s', ids) && ReaddressedOf(s, u, s') == Readdressed(s, s', ids)
  {
    forall d ensures d in LostOf(s, u, s') <==> d in Lost(s, s', ids) {
      assert d in ids <==> d in s.devices && s.devices[d].owner == u;
    }
    forall d ensures d in ReaddressedOf(s, u, s') <==> d in Readdressed(s, s', ids) {
      assert d in ids <==> d in s.devices && s.devices[d].owner == u;
    }
  }

  lemma ListedAreOwned(s: Store, u: int, ids: seq<int>)
    requires ListsRows(s, u, ids)
    ensures forall d :: d in ids <==> d in s.devices && s.devices[d].owner == u
  {
    forall d | d in s.devices && s.devices[d].owner == u ensures d in ids {
      assert Owns(s, u, d);
    }
  }
}
