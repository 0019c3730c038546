/** Bringing the addresses of a template's devices in line with its pools
    (service/user/device.go): what one pass does, and what it guarantees. */
module Resync {
  import opened Results
  import opened Masks
  import opened AddressPools
  import opened Tables

  datatype Outcome = Updated | Unchanged | Deleted | Failed

  datatype Response = Response(updated: nat, deleted: nat, errors: nat)

  /** addrs lists a device's addresses in whatever order the database returns them. */
  ghost predicate Listed(s: Store, id: int, addrs: seq<Prefix>) {
    id in s.addresses && multiset(addrs) == multiset(s.addresses[id])
  }

  predicate HasAddressChanges(current: seq<Prefix>, keep: seq<Prefix>, add: seq<Prefix>) {
    |add| > 0 || |keep| != |current|
  }

  ghost function StillUncovered(current: seq<Prefix>, pools: seq<AddressPool>): seq<AddressPool> {
    Uncovered(pools, Categorize(current, pools).Covered())
  }

  /** The pass over one device whose addresses were listed as current: resyncSingleDevice,
      and the deletion that follows when a pool has nothing left. */
  ghost predicate ResyncListed(s: Store, id: int, pools: seq<AddressPool>, current: seq<Prefix>,
                                 s': Store, o: Outcome) {
    match o
    case Unchanged =>
      s' == s && StillUncovered(current, pools) == [] && |Categorize(current, pools).keep| == |current|
    case Updated =>
      exists add :: Allocated(s, StillUncovered(current, pools), add)
        && HasAddressChanges(current, Categorize(current, pools).keep, add)
        && s' == s.(addresses := s.addresses[id := Categorize(current, pools).keep + add])
    case Deleted =>
      s' == Without(s, id) && exists p :: p in StillUncovered(current, pools) && NoneFree(s, p)
    case Failed => s' == s
  }

  ghost predicate ResyncDevice(s: Store, id: int, pools: seq<AddressPool>, s': Store, o: Outcome) {
    exists current :: Listed(s, id, current) && ResyncListed(s, id, pools, current, s', o)
  }

  ghost predicate OutOfAddresses(s: Store, id: int, pools: seq<AddressPool>) {
    exists current, p :: Listed(s, id, current) && p in StillUncovered(current, pools) && NoneFree(s, p)
  }

  lemma DeletedPass(s: Store, id: int, pools: seq<AddressPool>)
    requires OutOfAddresses(s, id, pools)
    ensures ResyncDevice(s, id, pools, Without(s, id), Deleted)
  {
    var current, p :| Listed(s, id, current) && p in StillUncovered(current, pools) && NoneFree(s, p);
    assert ResyncListed(s, id, pools, current, Without(s, id), Deleted);
  }

  lemma FailedPass(s: Store, id: int, pools: seq<AddressPool>)
    requires id in s.addresses
    ensures ResyncDevice(s, id, pools, s, Failed)
  {
    assert Listed(s, id, s.addresses[id]) && ResyncListed(s, id, pools, s.addresses[id], s, Failed);
  }

  /** The loop over the devices. */
  ghost predicate ResyncAll(s: Store, ids: seq<int>, pools: seq<AddressPool>, s': Store, outcomes: seq<Outcome>) {
    |outcomes| == |ids| &&
    if ids == [] then s' == s
    else
      var n := |ids| - 1;
      exists m :: ResyncAll(s, ids[..n], pools, m, outcomes[..n]) && ResyncDevice(m, ids[n], pools, s', outcomes[n])
  }

  function Count(outcomes: seq<Outcome>, o: Outcome): nat {
    if outcomes == [] then 0
    else Count(outcomes[..|outcomes| - 1], o) + if outcomes[|outcomes| - 1] == o then 1 else 0
  }

  function Summary(outcomes: seq<Outcome>): Response {
    Response(Count(outcomes, Updated), Count(outcomes, Deleted), Count(outcomes, Failed))
  }

  /** The response with one more outcome counted. */
  function Tallied(r: Response, o: Outcome): Response {
    match o
    case Updated => r.(updated := r.updated + 1)
    case Deleted => r.(deleted := r.deleted + 1)
    case Failed => r.(errors := r.errors + 1)
    case Unchanged => r
  }

  lemma OneMorePass(s: Store, ids: seq<int>, i: nat, pools: seq<AddressPool>, m: Store, outcomes: seq<Outcome>,
                    s': Store, o: Outcome)
    requires i < |ids| && ResyncAll(s, ids[..i], pools, m, outcomes) && ResyncDevice(m, ids[i], pools, s', o)
    ensures ResyncAll(s, ids[..i + 1], pools, s', outcomes + [o])
  {
    assert ids[..i + 1][..i] == ids[..i] && (outcomes + [o])[..|outcomes|] == outcomes;
  }

  lemma OneMoreCounted(outcomes: seq<Outcome>, o: Outcome)
    ensures Summary(outcomes + [o]) == Tallied(Summary(outcomes), o)
  {
    assert (outcomes + [o])[..|outcomes|] == outcomes;
  }

  /** ids lists the user's devices, each once. */
  ghost predicate ListsRows(s: Store, u: int, ids: seq<int>) {
    && (forall i :: 0 <= i < |ids| ==> Owns(s, u, ids[i]))
    && (forall id :: id in s.devices && Owns(s, u, id) ==> id in ids)
    && (forall i, j :: 0 <= i < j < |ids| ==> ids[i] != ids[j])
  }

  /** ResyncDevices. */
  ghost predicate ResyncStep(s: Store, u: int, faults: set<Fault>, s': Store, r: Result<Response, Error>) {
    match r
    case Ok(response) =>
      u in s.templates && exists ids, outcomes ::
        ListsRows(s, u, ids) && ResyncAll(s, ids, s.templates[u], s', outcomes) && response == Summary(outcomes)
    case Err(_) => s' == s && (u in s.templates ==> faults != {})
  }

  // ---- Matching addresses and pools one to one ----

  /** The addresses and the pools correspond one to one, each address lying in its pool. */
  ghost predicate Synced(addrs: seq<Prefix>, pools: seq<AddressPool>) {
    exists ids :: Matched(addrs, ids, pools) && forall p :: p in pools ==> p.id in ids
  }

  lemma {:induction false} SubsequenceLength<T(!new)>(xs: seq<T>, ys: seq<T>)
    requires Subsequence(xs, ys)
    ensures |xs| <= |ys| && (|xs| == |ys| ==> xs == ys)
    ensures multiset(xs) <= multiset(ys)
    decreases ys
  {
    if xs != [] {
      var m, n := |xs| - 1, |ys| - 1;
      assert ys == ys[..n] + [ys[n]] && xs == xs[..m] + [xs[m]];
      if Subsequence(xs, ys[..n]) {
        SubsequenceLength(xs, ys[..n]);
      } else {
        SubsequenceLength(xs[..m], ys[..n]);
      }
    }
  }

  lemma EmptyMeansCovered(pools: seq<AddressPool>, covered: set<int>)
    ensures Uncovered(pools, covered) == [] <==> forall p :: p in pools ==> p.id in covered
  {
    var rest := Uncovered(pools, covered);
    UncoveredMeans(pools, covered);
    if rest != [] {
      assert rest[0] in rest;
    }
  }

  /** Allocated addresses lie in their own pools. */
  lemma AllocatedBelong(s: Store, pools: seq<AddressPool>, addrs: seq<Prefix>)
    requires Allocated(s, pools, addrs)
    ensures forall i :: 0 <= i < |pools| ==> Belongs(addrs[i], pools[i]) && !InUse(s, addrs[i].addr)
  {
    forall i | 0 <= i < |pools| ensures Belongs(addrs[i], pools[i]) && !InUse(s, addrs[i].addr) {
      assert FirstFree(s, pools[i], addrs[i]);
    }
  }

  function IDs(pools: seq<AddressPool>): (ids: seq<int>)
    ensures |ids| == |pools| && forall i :: 0 <= i < |pools| ==> ids[i] == pools[i].id
  {
    seq(|pools|, i requires 0 <= i < |pools| => pools[i].id)
  }

  /** The positions of the uncovered pools. */
  lemma {:induction false} UncoveredAt(pools: seq<AddressPool>, covered: set<int>) returns (at: seq<int>)
    ensures |at| == |Uncovered(pools, covered)|
    ensures forall i :: 0 <= i < |at| ==> 0 <= at[i] < |pools| && Uncovered(pools, covered)[i] == pools[at[i]]
    ensures forall i, j :: 0 <= i < j < |at| ==> at[i] < at[j]
  {
    at := [];
    if pools != [] {
      var n := |pools| - 1;
      at := UncoveredAt(pools[..n], covered);
      if pools[n].id !in covered {
        at := at + [n];
      }
    }
  }

  lemma UncoveredKeeps(pools: seq<AddressPool>, covered: set<int>)
    ensures ValidIDs(pools) ==> ValidIDs(Uncovered(pools, covered))
    ensures Disjoint(pools) ==> Disjoint(Uncovered(pools, covered))
  {
    var at := UncoveredAt(pools, covered);
  }

  lemma MatchedPrefix(xs: seq<Prefix>, ids: seq<int>, pools: seq<AddressPool>)
    requires Matched(xs, ids, pools) && xs != []
    ensures Matched(xs[..|xs| - 1], ids[..|xs| - 1], pools) && Covers(pools, ids[|xs| - 1], xs[|xs| - 1])
    ensures ids[|xs| - 1] !in ids[..|xs| - 1]
  {
    assert forall i :: 0 <= i < |xs| ==> Covers(pools, ids[i], xs[i]);
  }

  lemma MatchedJoin(xs: seq<Prefix>, a: seq<int>, ys: seq<Prefix>, b: seq<int>, pools: seq<AddressPool>)
    requires Matched(xs, a, pools) && Matched(ys, b, pools)
    requires forall i, j :: 0 <= i < |a| && 0 <= j < |b| ==> a[i] != b[j]
    ensures Matched(xs + ys, a + b, pools)
  {
    forall i | 0 <= i < |xs + ys| ensures Covers(pools, (a + b)[i], (xs + ys)[i]) {
      if i < |xs| {
        assert Covers(pools, a[i], xs[i]);
      } else {
        assert Covers(pools, b[i - |xs|], ys[i - |xs|]);
      }
    }
  }

  /** Addresses allocated for the uncovered pools are matched to them. */
  lemma AllocatedAreMatched(s: Store, pools: seq<AddressPool>, covered: set<int>, add: seq<Prefix>)
    requires ValidIDs(pools) && Allocated(s, Uncovered(pools, covered), add)
    ensures Matched(add, IDs(Uncovered(pools, covered)), pools)
    ensures forall id :: id in IDs(Uncovered(pools, covered)) ==> id !in covered
  {
    var rest := Uncovered(pools, covered);
    UncoveredKeeps(pools, covered);
    UncoveredMeans(pools, covered);
    AllocatedBelong(s, rest, add);
    forall i | 0 <= i < |rest| ensures Covers(pools, IDs(rest)[i], add[i]) && IDs(rest)[i] !in covered {
      assert rest[i] in rest;
      assert rest[i] in pools && Belongs(add[i], rest[i]);
      CoversMeans(pools, rest[i].id, add[i]);
    }
  }

  /** What a device is left with when it is not deleted: the kept addresses and one
      new address for each pool still uncovered correspond to the pools. */
  lemma KeptAndAddedAreSynced(s: Store, current: seq<Prefix>, pools: seq<AddressPool>, add: seq<Prefix>)
    requires ValidIDs(pools) && Allocated(s, StillUncovered(current, pools), add)
    ensures Synced(Categorize(current, pools).keep + add, pools)
  {
    var c, rest := Categorize(current, pools), StillUncovered(current, pools);
    KeptAreMatched(current, pools);
    AllocatedAreMatched(s, pools, c.Covered(), add);
    assert forall j :: 0 <= j < |rest| ==> IDs(rest)[j] in IDs(rest);
    MatchedJoin(c.keep, c.ids, add, IDs(rest), pools);
    CoveredOrNot(pools, c.ids);
  }

  lemma CoveredOrNot(pools: seq<AddressPool>, ids: seq<int>)
    ensures forall p :: p in pools ==> p.id in ids + IDs(Uncovered(pools, set id | id in ids))
  {
    var rest := Uncovered(pools, set id | id in ids);
    UncoveredMeans(pools, set id | id in ids);
    forall p | p in pools ensures p.id in ids + IDs(rest) {
      if p.id !in ids {
        var i :| 0 <= i < |rest| && rest[i] == p;
        assert (ids + IDs(rest))[|ids| + i] == p.id;
      }
    }
  }

  // ---- Listing order does not matter ----

  /** A matching of one listing gives a matching of any other. */
  lemma {:induction false} MatchedPermuted(xs: seq<Prefix>, ids: seq<int>, ys: seq<Prefix>, pools: seq<AddressPool>)
    returns (ids': seq<int>)
    requires Matched(xs, ids, pools) && multiset(xs) == multiset(ys)
    ensures Matched(ys, ids', pools) && multiset(ids') == multiset(ids)
    decreases |xs|
  {
    if xs == [] {
      assert |multiset(ys)| == 0;
      ids' := [];
    } else {
      var n := |xs| - 1;
      var j, rest := TakeOut(xs, ys);
      MatchedPrefix(xs, ids, pools);
      assert ids == ids[..n] + [ids[n]];
      var restIDs := MatchedPermuted(xs[..n], ids[..n], rest, pools);
      ids' := MatchedInsert(ys, restIDs, j, ids[n], pools);
      assert restIDs == restIDs[..j] + restIDs[j..];
    }
  }

  /** Finds the last element of xs in ys, a listing of the same elements. */
  lemma TakeOut<T>(xs: seq<T>, ys: seq<T>) returns (j: nat, rest: seq<T>)
    requires xs != [] && multiset(xs) == multiset(ys)
    ensures j < |ys| && ys[j] == xs[|xs| - 1] && rest == ys[..j] + ys[j + 1..]
    ensures multiset(rest) == multiset(xs[..|xs| - 1])
  {
    var n := |xs| - 1;
    assert xs == xs[..n] + [xs[n]];
    assert xs[n] in multiset(ys);
    j :| 0 <= j < |ys| && ys[j] == xs[n];
    rest := ys[..j] + ys[j + 1..];
    assert ys == ys[..j] + [ys[j]] + ys[j + 1..];
    assert multiset(rest) == multiset(ys) - multiset{xs[n]} == multiset(xs) - multiset{xs[n]};
  }

  lemma MatchedInsert(ys: seq<Prefix>, rest: seq<int>, j: nat, id: int, pools: seq<AddressPool>)
    returns (ids: seq<int>)
    requires j < |ys| && Matched(ys[..j] + ys[j + 1..], rest, pools)
    requires Covers(pools, id, ys[j]) && id !in multiset(rest)
    ensures ids == rest[..j] + [id] + rest[j..] && Matched(ys, ids, pools)
  {
    ids := rest[..j] + [id] + rest[j..];
    forall i | 0 <= i < |ys| ensures Covers(pools, ids[i], ys[i]) {
      if i != j {
        var k := if i < j then i else i - 1;
        assert Covers(pools, rest[k], (ys[..j] + ys[j + 1..])[k]);
      }
    }
  }

  lemma SyncedPermuted(xs: seq<Prefix>, ys: seq<Prefix>, pools: seq<AddressPool>)
    requires Synced(xs, pools) && multiset(xs) == multiset(ys)
    ensures Synced(ys, pools)
  {
    var ids :| Matched(xs, ids, pools) && forall p :: p in pools ==> p.id in ids;
    var ids' := MatchedPermuted(xs, ids, ys, pools);
    forall p | p in pools ensures p.id in ids' {
      assert p.id in multiset(ids');
    }
  }

  // ---- One pass ----

  /** A pass that neither deletes the device nor fails leaves its addresses and
      the pools in one-to-one correspondence. */
  lemma ResyncedIsSynced(s: Store, id: int, pools: seq<AddressPool>, s': Store, o: Outcome)
    requires ValidIDs(pools) && ResyncDevice(s, id, pools, s', o) && (o == Updated || o == Unchanged)
    ensures id in s'.addresses && Synced(s'.addresses[id], pools)
  {
    var current :| Listed(s, id, current) && ResyncListed(s, id, pools, current, s', o);
    if o == Updated {
      var add :| Allocated(s, StillUncovered(current, pools), add)
        && s' == s.(addresses := s.addresses[id := Categorize(current, pools).keep + add]);
      KeptAndAddedAreSynced(s, current, pools, add);
    } else {
      KeptAreMatched(current, pools);
      SubsequenceLength(Categorize(current, pools).keep, current);
      EmptyMeansCovered(pools, Categorize(current, pools).Covered());
      SyncedPermuted(current, s.addresses[id], pools);
    }
  }

  /** With disjoint pools, a pool still uncovered had none of the device's addresses. */
  lemma {:induction false} UncoveredHadNone(current: seq<Prefix>, pools: seq<AddressPool>, p: AddressPool)
    requires ValidIDs(pools) && Disjoint(pools) && p in pools
    ensures p.id in Categorize(current, pools).Covered() <==> exists a :: a in current && Belongs(a, p)
  {
    if current != [] {
      var n := |current| - 1;
      var before := Categorize(current[..n], pools);
      UncoveredHadNone(current[..n], pools, p);
      assert current == current[..n] + [current[n]];
      FoundPool(current[n], pools, before.Covered());
      OnePoolPerAddress(current[n], pools);
      SameID(pools);
      var id := PoolFor(current[n], Uncovered(pools, before.Covered()));
      CoversMeans(pools, id, current[n]);
      assert Categorize(current, pools).Covered() == if id == -1 then before.Covered() else before.Covered() + {id};
    }
  }

  lemma OnePoolPerAddress(a: Prefix, pools: seq<AddressPool>)
    requires Disjoint(pools)
    ensures forall p, q :: p in pools && q in pools && Belongs(a, p) && Belongs(a, q) ==> p == q
  {
    forall p, q | p in pools && q in pools && Belongs(a, p) && Belongs(a, q) ensures p == q {
      var i :| 0 <= i < |pools| && pools[i] == p;
      var j :| 0 <= j < |pools| && pools[j] == q;
      assert PoolsOverlap(pools[i], pools[j]) && PoolsOverlap(pools[j], pools[i]);
    }
  }

  /** With disjoint pools, addresses in one-to-one correspondence with the pools
      are all kept and cover every pool, in whatever order they are listed. */
  lemma {:induction false} SyncedKeepsAll(current: seq<Prefix>, ids: seq<int>, pools: seq<AddressPool>)
    requires ValidIDs(pools) && Disjoint(pools) && Matched(current, ids, pools)
    ensures Categorize(current, pools) == Sorted(current, ids)
  {
    if current != [] {
      var n := |current| - 1;
      var xs, a, before, id := current[..n], current[n], ids[..n], ids[n];
      assert current == xs + [a] && ids == before + [id];
      MatchedPrefix(current, ids, pools);
      SyncedKeepsAll(xs, before, pools);
      OnlyPoolIsFound(a, pools, Sorted(xs, before).Covered(), id);
      KeepOneMore(xs, before, a, id, pools);
    }
  }

  lemma KeepOneMore(xs: seq<Prefix>, ids: seq<int>, a: Prefix, id: int, pools: seq<AddressPool>)
    requires Categorize(xs, pools) == Sorted(xs, ids)
    requires PoolFor(a, Uncovered(pools, Sorted(xs, ids).Covered())) == id != -1
    ensures Categorize(xs + [a], pools) == Sorted(xs + [a], ids + [id])
  {
    assert (xs + [a])[..|xs|] == xs;
  }

  lemma OnlyPoolIsFound(a: Prefix, pools: seq<AddressPool>, covered: set<int>, id: int)
    requires ValidIDs(pools) && Disjoint(pools) && Covers(pools, id, a) && id !in covered
    ensures PoolFor(a, Uncovered(pools, covered)) == id != -1
  {
    FoundPool(a, pools, covered);
    CoversMeans(pools, id, a);
    CoversMeans(pools, PoolFor(a, Uncovered(pools, covered)), a);
    OnePoolPerAddress(a, pools);
  }

  /** A pass over a device in correspondence with disjoint pools changes nothing. */
  lemma SyncedStays(s: Store, id: int, pools: seq<AddressPool>, s': Store, o: Outcome)
    requires ValidIDs(pools) && Disjoint(pools) && ResyncDevice(s, id, pools, s', o)
    requires id in s.addresses && Synced(s.addresses[id], pools)
    ensures s' == s && (o == Unchanged || o == Failed)
  {
    var current :| Listed(s, id, current) && ResyncListed(s, id, pools, current, s', o);
    SyncedPermuted(s.addresses[id], current, pools);
    var ids :| Matched(current, ids, pools) && forall p :: p in pools ==> p.id in ids;
    SyncedKeepsAll(current, ids, pools);
    EmptyMeansCovered(pools, Categorize(current, pools).Covered());
  }

  // ---- All devices of a template ----

  /** Where every device is in correspondence already, the whole run changes nothing. */
  lemma {:induction false} AllSyncedStays(s: Store, ids: seq<int>, pools: seq<AddressPool>,
                                           s': Store, outcomes: seq<Outcome>)
    requires ValidIDs(pools) && Disjoint(pools) && ResyncAll(s, ids, pools, s', outcomes)
    requires forall i :: 0 <= i < |ids| ==> ids[i] in s.addresses && Synced(s.addresses[ids[i]], pools)
    ensures s' == s && Summary(outcomes).updated == 0 && Summary(outcomes).deleted == 0
  {
    if ids != [] {
      var n := |ids| - 1;
      var m :| ResyncAll(s, ids[..n], pools, m, outcomes[..n]) && ResyncDevice(m, ids[n], pools, s', outcomes[n]);
      AllSyncedStays(s, ids[..n], pools, m, outcomes[..n]);
      SyncedStays(m, ids[n], pools, s', outcomes[n]);
    }
  }

  /** A pass touches only the device it is about. */
  lemma PassTouchesOne(s: Store, id: int, pools: seq<AddressPool>, s': Store, o: Outcome)
    requires ResyncDevice(s, id, pools, s', o)
    ensures s'.templates == s.templates && s'.servers == s.servers && s'.limit == s.limit && s'.nextID == s.nextID
    ensures s'.users == s.users && s'.certUsers == s.certUsers
    ensures s'.devices == s.devices || s'.devices == s.devices - {id}
    ensures forall d :: d != id ==> (d in s'.addresses <==> d in s.addresses)
    ensures forall d :: d != id && d in s.addresses ==> s'.addresses[d] == s.addresses[d]
  {
  }

  /** After a run without errors every device left is in correspondence with the pools. */
  lemma {:induction false} RunSyncs(s: Store, ids: seq<int>, pools: seq<AddressPool>, s': Store, outcomes: seq<Outcome>)
    requires ValidIDs(pools) && ResyncAll(s, ids, pools, s', outcomes) && Summary(outcomes).errors == 0
    requires forall i, j :: 0 <= i < j < |ids| ==> ids[i] != ids[j]
    ensures AllSynced(s', ids, pools)
  {
    if ids != [] {
      var n := |ids| - 1;
      var m :| ResyncAll(s, ids[..n], pools, m, outcomes[..n]) && ResyncDevice(m, ids[n], pools, s', outcomes[n]);
      RunSyncs(s, ids[..n], pools, m, outcomes[..n]);
      assert outcomes[n] != Failed;
      OneMoreSynced(m, ids, pools, s', outcomes[n]);
    }
  }

  ghost predicate AllSynced(s: Store, ids: seq<int>, pools: seq<AddressPool>) {
    forall i :: 0 <= i < |ids| && ids[i] in s.addresses ==> Synced(s.addresses[ids[i]], pools)
  }

  lemma OneMoreSynced(m: Store, ids: seq<int>, pools: seq<AddressPool>, s': Store, o: Outcome)
    requires ids != [] && ValidIDs(pools) && AllSynced(m, ids[..|ids| - 1], pools)
    requires ResyncDevice(m, ids[|ids| - 1], pools, s', o) && o != Failed
    requires forall i, j :: 0 <= i < j < |ids| ==> ids[i] != ids[j]
    ensures AllSynced(s', ids, pools)
  {
    var n := |ids| - 1;
    PassTouchesOne(m, ids[n], pools, s', o);
    if o == Deleted {
      assert ids[n] !in s'.addresses;
    } else {
      ResyncedIsSynced(m, ids[n], pools, s', o);
    }
    forall i | 0 <= i < n && ids[i] in s'.addresses ensures Synced(s'.addresses[ids[i]], pools) {
      assert ids[..n][i] == ids[i] && ids[i] != ids[n];
    }
  }

  lemma {:induction false} RunFrame(s: Store, ids: seq<int>, pools: seq<AddressPool>, s': Store, outcomes: seq<Outcome>)
    requires ResyncAll(s, ids, pools, s', outcomes)
    ensures s'.templates == s.templates && s'.servers == s.servers && s'.limit == s.limit && s'.nextID == s.nextID
    ensures s'.users == s.users && s'.certUsers == s.certUsers
    ensures forall d :: d in s'.devices ==> d in s.devices && s'.devices[d] == s.devices[d]
    ensures forall d :: d in s.devices && d !in ids ==> d in s'.devices
  {
    if ids != [] {
      var n := |ids| - 1;
      var m :| ResyncAll(s, ids[..n], pools, m, outcomes[..n]) && ResyncDevice(m, ids[n], pools, s', outcomes[n]);
      RunFrame(s, ids[..n], pools, m, outcomes[..n]);
      PassTouchesOne(m, ids[n], pools, s', outcomes[n]);
    }
  }

  lemma {:induction false} ResyncKeysMatch(s: Store, ids: seq<int>, pools: seq<AddressPool>,
                                            s': Store, outcomes: seq<Outcome>)
    requires ResyncAll(s, ids, pools, s', outcomes) && s.addresses.Keys == s.devices.Keys
    ensures s'.addresses.Keys == s'.devices.Keys
  {
    if ids != [] {
      var n := |ids| - 1;
      var m :| ResyncAll(s, ids[..n], pools, m, outcomes[..n]) && ResyncDevice(m, ids[n], pools, s', outcomes[n]);
      ResyncKeysMatch(s, ids[..n], pools, m, outcomes[..n]);
    }
  }

  /** A second ResyncDevices after one without errors, while the pools are the
      same and do not overlap, updates and deletes nothing. */
  lemma ResyncIdempotent(s: Store, u: int, faults: set<Fault>, m: Store, first: Response,
                         faults': set<Fault>, s': Store, second: Response)
    requires s.Valid() && ResyncStep(s, u, faults, m, Ok(first)) && first.errors == 0
    requires ResyncStep(m, u, faults', s', Ok(second))
    requires Disjoint(s.templates[u])
    ensures s' == m && second.updated == 0 && second.deleted == 0
  {
    var pools := s.templates[u];
    var ids, outcomes :| ListsRows(s, u, ids) && ResyncAll(s, ids, pools, m, outcomes) && first == Summary(outcomes);
    RunFrame(s, ids, pools, m, outcomes);
    ResyncKeysMatch(s, ids, pools, m, outcomes);
    RunSyncs(s, ids, pools, m, outcomes);
    var ids', outcomes' :|
      ListsRows(m, u, ids') && ResyncAll(m, ids', pools, s', outcomes') && second == Summary(outcomes');
    forall i | 0 <= i < |ids'| ensures ids'[i] in m.addresses && Synced(m.addresses[ids'[i]], pools) {
      assert Owns(m, u, ids'[i]) && Owns(s, u, ids'[i]);
      var k :| 0 <= k < |ids| && ids[k] == ids'[i];
    }
    AllSyncedStays(m, ids', pools, s', outcomes');
  }
}
