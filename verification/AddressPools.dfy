/** Address pools: overlap (pkg/addresspools/overlap.go), matching of addresses
    to pools, and the sorting of a device's addresses into those it keeps and
    the pools they cover (service/user/device.go). */
module AddressPools {
  import opened Results
  import opened Octets
  import opened Masks
  import opened AddrRanges

  datatype AddressPool = AddressPool(id: int, name: string, start: Addr, end: Addr, mask: Bits)

  /** Pool IDs are serial primary keys, and a pool is listed once. */
  ghost predicate ValidIDs(pools: seq<AddressPool>) {
    && (forall i :: 0 <= i < |pools| ==> pools[i].id > 0)
    && (forall i, j :: 0 <= i < j < |pools| ==> pools[i].id != pools[j].id)
  }

  function PoolRange(pool: AddressPool): Result<AddrRange, RangeError> {
    AddrRangeFromPrefixes(Prefix(pool.start, pool.mask), Prefix(pool.end, pool.mask))
  }

  /** Every pool's range can be built. */
  ghost predicate Usable(pools: seq<AddressPool>) {
    forall i :: 0 <= i < |pools| ==> PoolRange(pools[i]).Ok?
  }

  predicate InPool(a: Addr, pool: AddressPool) {
    pool.start <= a <= pool.end
  }

  // ---- Overlap ----

  predicate PoolsOverlap(p: AddressPool, q: AddressPool) {
    p.start <= q.end && q.start <= p.end
  }

  ghost predicate Disjoint(pools: seq<AddressPool>) {
    forall i, j :: 0 <= i < j < |pools| ==> !PoolsOverlap(pools[i], pools[j])
  }

  method VerifyPoolsNotOverlap(pools: seq<AddressPool>) returns (r: Result<(), (string, string)>)
    ensures r.Ok? <==> Disjoint(pools)
    ensures r.Err? ==> exists i, j :: 0 <= i < j < |pools| && PoolsOverlap(pools[i], pools[j])
                                      && r.error == (pools[i].name, pools[j].name)
  {
    for i := 0 to |pools|
      invariant forall k, j :: 0 <= k < i && k < j < |pools| ==> !PoolsOverlap(pools[k], pools[j])
    {
      for j := i + 1 to |pools|
        invariant forall k :: i < k < j ==> !PoolsOverlap(pools[i], pools[k])
      {
        if PoolsOverlap(pools[i], pools[j]) {
          return Err((pools[i].name, pools[j].name));
        }
      }
    }
    return Ok(());
  }

  /** On pools whose range can be built, not overlapping means having no address in common. */
  lemma OverlapIsSharedAddress(p: AddressPool, q: AddressPool)
    requires PoolRange(p).Ok? && PoolRange(q).Ok?
    ensures PoolsOverlap(p, q) <==> exists a: Addr :: InPool(a, p) && InPool(a, q)
  {
    if PoolsOverlap(p, q) {
      var a := if p.start <= q.start then q.start else p.start;
      assert InPool(a, p) && InPool(a, q);
    }
  }

  // ---- Matching an address to a pool ----

  predicate Belongs(addr: Prefix, pool: AddressPool) {
    InPool(addr.addr, pool) && addr.bits == pool.mask
  }

  /** The size findPoolForAddress compares: one less than the number of addresses. */
  function Size(pool: AddressPool): int {
    pool.end - pool.start
  }

  /** Pool k is the first of least size among those of the first n that contain addr. */
  ghost predicate BestPoolAt(addr: Prefix, pools: seq<AddressPool>, n: nat, k: int)
    requires n <= |pools|
  {
    && 0 <= k < n && Belongs(addr, pools[k])
    && (forall j :: 0 <= j < n && Belongs(addr, pools[j]) ==> Size(pools[k]) <= Size(pools[j]))
    && (forall j :: 0 <= j < k && Belongs(addr, pools[j]) ==> Size(pools[k]) < Size(pools[j]))
  }

  ghost predicate NoPool(addr: Prefix, pools: seq<AddressPool>, n: nat)
    requires n <= |pools|
  {
    forall k :: 0 <= k < n ==> !Belongs(addr, pools[k])
  }

  ghost function BestAmong(addr: Prefix, pools: seq<AddressPool>, n: nat): (b: Option<nat>)
    requires n <= |pools|
    ensures b.Some? ==> b.value < n
  {
    if n == 0 then None
    else
      var b := BestAmong(addr, pools, n - 1);
      if Belongs(addr, pools[n - 1]) && (b.None? || Size(pools[n - 1]) < Size(pools[b.value])) then Some(n - 1) else b
  }

  lemma {:induction false} BestAmongIsBest(addr: Prefix, pools: seq<AddressPool>, n: nat)
    requires n <= |pools|
    ensures match BestAmong(addr, pools, n)
      case None => NoPool(addr, pools, n)
      case Some(k) => BestPoolAt(addr, pools, n, k)
  {
    if n > 0 { BestAmongIsBest(addr, pools, n - 1); }
  }

  /** The ID of the first pool of least size that contains addr; -1 when no pool does. */
  ghost function PoolFor(addr: Prefix, pools: seq<AddressPool>): int {
    var b := BestAmong(addr, pools, |pools|);
    if b.None? then -1 else pools[b.value].id
  }

  /** findPoolForAddress finds -1 when no pool contains the address, and otherwise
      the one pool that is the first of least size. */
  lemma PoolForIsBest(addr: Prefix, pools: seq<AddressPool>)
    ensures NoPool(addr, pools, |pools|) ==> PoolFor(addr, pools) == -1
    ensures !NoPool(addr, pools, |pools|) ==> exists k ::
      BestPoolAt(addr, pools, |pools|, k) && PoolFor(addr, pools) == pools[k].id
  {
    BestAmongIsBest(addr, pools, |pools|);
  }

  lemma BestIsFound(addr: Prefix, pools: seq<AddressPool>, k: int)
    requires BestPoolAt(addr, pools, |pools|, k)
    ensures PoolFor(addr, pools) == pools[k].id
  {
    BestAmongIsBest(addr, pools, |pools|);
  }

  /** at lists, in order, the positions of the pools that contain addr. */
  ghost predicate Candidates(addr: Prefix, pools: seq<AddressPool>, at: seq<int>) {
    && (forall c :: 0 <= c < |at| ==> 0 <= at[c] < |pools| && Belongs(addr, pools[at[c]]))
    && (forall c, d :: 0 <= c < d < |at| ==> at[c] < at[d])
    && (forall k :: 0 <= k < |pools| && Belongs(addr, pools[k]) ==> k in at)
  }

  /** The first pass: collect the pools that contain addr. */
  method CandidatePools(addr: Prefix, pools: seq<AddressPool>)
    returns (candidates: seq<AddressPool>, ghost at: seq<int>)
    ensures Candidates(addr, pools, at)
    ensures |candidates| == |at| && forall c :: 0 <= c < |at| ==> candidates[c] == pools[at[c]]
  {
    candidates, at := [], [];
    for i := 0 to |pools|
      invariant |candidates| == |at|
      invariant forall c :: 0 <= c < |at| ==>
        0 <= at[c] < i && candidates[c] == pools[at[c]] && Belongs(addr, pools[at[c]])
      invariant forall c, d :: 0 <= c < d < |at| ==> at[c] < at[d]
      invariant forall k :: 0 <= k < i && Belongs(addr, pools[k]) ==> k in at
    {
      if Belongs(addr, pools[i]) {
        candidates := candidates + [pools[i]];
        at := at + [i];
      }
    }
  }

  /** Subtraction of 32-bit numbers, which wraps around below zero. */
  function MinusUint32(x: Addr, y: Addr): Addr {
    (x - y) % 0x1_0000_0000
  }

  /** The second pass: the first candidate of least size. Every candidate has
      start <= end, so none is skipped and the unsigned subtraction never wraps. */
  method SmallestPool(candidates: seq<AddressPool>) returns (smallest: AddressPool, ghost best: nat)
    requires candidates != []
    requires forall c :: 0 <= c < |candidates| ==> candidates[c].start <= candidates[c].end
    ensures best < |candidates| && smallest == candidates[best]
    ensures forall c :: 0 <= c < |candidates| ==> Size(smallest) <= Size(candidates[c])
    ensures forall c :: 0 <= c < best ==> Size(smallest) < Size(candidates[c])
  {
    smallest, best := candidates[0], 0;
    var minSize: Option<int> := None;
    for i := 0 to |candidates|
      invariant best < |candidates| && smallest == candidates[best]
      invariant minSize == if i == 0 then None else Some(Size(smallest))
      invariant i == 0 ==> best == 0
      invariant forall c :: 0 <= c < i ==> Size(smallest) <= Size(candidates[c])
      invariant forall c :: 0 <= c < best ==> Size(smallest) < Size(candidates[c])
    {
      var start, end := AddrFrom4(As4(candidates[i].start)), AddrFrom4(As4(candidates[i].end));
      As4Inverse(candidates[i].start);
      As4Inverse(candidates[i].end);
      if end < start {
        continue;
      }
      var size := MinusUint32(end, start);
      if minSize.None? || size < minSize.value {
        minSize, smallest, best := Some(size), candidates[i], i;
      }
    }
  }

  method FindPoolForAddress(addr: Prefix, pools: seq<AddressPool>) returns (id: int)
    ensures id == PoolFor(addr, pools)
  {
    var candidates, at := CandidatePools(addr, pools);
    if |candidates| == 0 {
      PoolForIsBest(addr, pools);
      return -1;
    }
    if |candidates| == 1 {
      SmallestIsBest(addr, pools, at, 0);
      BestIsFound(addr, pools, at[0]);
      return candidates[0].id;
    }
    var smallest, best := SmallestPool(candidates);
    SmallestIsBest(addr, pools, at, best);
    BestIsFound(addr, pools, at[best]);
    return smallest.id;
  }

  lemma SmallestIsBest(addr: Prefix, pools: seq<AddressPool>, at: seq<int>, best: nat)
    requires Candidates(addr, pools, at) && best < |at|
    requires forall c :: 0 <= c < |at| ==> Size(pools[at[best]]) <= Size(pools[at[c]])
    requires forall c :: 0 <= c < best ==> Size(pools[at[best]]) < Size(pools[at[c]])
    ensures BestPoolAt(addr, pools, |pools|, at[best])
  {
    forall j | 0 <= j < |pools| && Belongs(addr, pools[j])
      ensures Size(pools[at[best]]) <= Size(pools[j]) && (j < at[best] ==> Size(pools[at[best]]) < Size(pools[j]))
    {
      var c :| 0 <= c < |at| && at[c] == j;
    }
  }

  // ---- Sorting a device's addresses into kept ones and covered pools ----

  /** The pools whose ID is not covered, in order. */
  function Uncovered(pools: seq<AddressPool>, covered: set<int>): seq<AddressPool> {
    if pools == [] then []
    else
      var rest := Uncovered(pools[..|pools| - 1], covered);
      if pools[|pools| - 1].id in covered then rest else rest + [pools[|pools| - 1]]
  }

  lemma {:induction false} UncoveredMeans(pools: seq<AddressPool>, covered: set<int>)
    ensures forall p :: p in Uncovered(pools, covered) <==> p in pools && p.id !in covered
  {
    if pools != [] {
      var n := |pools| - 1;
      assert pools == pools[..n] + [pools[n]];
      UncoveredMeans(pools[..n], covered);
    }
  }

  method FilterUncoveredPools(pools: seq<AddressPool>, covered: set<int>) returns (r: seq<AddressPool>)
    ensures r == Uncovered(pools, covered)
  {
    r := [];
    for i := 0 to |pools|
      invariant r == Uncovered(pools[..i], covered)
    {
      assert pools[..i + 1][..i] == pools[..i];
      if pools[i].id !in covered {
        r := r + [pools[i]];
      }
    }
    assert pools[..|pools|] == pools;
  }

  /** The addresses a device keeps, and for each the ID of the pool it covers. */
  datatype Sorted = Sorted(keep: seq<Prefix>, ids: seq<int>) {
    function Covered(): set<int> {
      set id | id in ids
    }
  }

  /** Each address goes to the best pool that no earlier address covers, or is dropped. */
  ghost function Categorize(addrs: seq<Prefix>, pools: seq<AddressPool>): Sorted {
    if addrs == [] then Sorted([], [])
    else
      var n := |addrs| - 1;
      var before := Categorize(addrs[..n], pools);
      var id := PoolFor(addrs[n], Uncovered(pools, before.Covered()));
      if id == -1 then before else Sorted(before.keep + [addrs[n]], before.ids + [id])
  }

  method CategorizeDeviceAddresses(addrs: seq<Prefix>, pools: seq<AddressPool>)
    returns (keep: seq<Prefix>, covered: set<int>)
    ensures keep == Categorize(addrs, pools).keep && covered == Categorize(addrs, pools).Covered()
  {
    keep, covered := [], {};
    for i := 0 to |addrs|
      invariant keep == Categorize(addrs[..i], pools).keep && covered == Categorize(addrs[..i], pools).Covered()
    {
      assert addrs[..i + 1][..i] == addrs[..i];
      var uncovered := FilterUncoveredPools(pools, covered);
      var id := FindPoolForAddress(addrs[i], uncovered);
      if id == -1 {
        continue;
      }
      keep := keep + [addrs[i]];
      covered := covered + {id};
    }
    assert addrs[..|addrs|] == addrs;
  }

  /** Some pool with this ID contains addr. */
  predicate Covers(pools: seq<AddressPool>, id: int, addr: Prefix) {
    pools != [] &&
    (var n := |pools| - 1;
     (pools[n].id == id && Belongs(addr, pools[n])) || Covers(pools[..n], id, addr))
  }

  lemma {:induction false} CoversMeans(pools: seq<AddressPool>, id: int, addr: Prefix)
    ensures Covers(pools, id, addr) <==> exists p :: p in pools && p.id == id && Belongs(addr, p)
  {
    if pools != [] {
      var n := |pools| - 1;
      assert pools == pools[..n] + [pools[n]];
      CoversMeans(pools[..n], id, addr);
    }
  }

  /** Each address lies in the pool whose ID it is matched to, and no ID is used twice. */
  ghost predicate Matched(addrs: seq<Prefix>, ids: seq<int>, pools: seq<AddressPool>) {
    && |addrs| == |ids|
    && (forall i :: 0 <= i < |addrs| ==> Covers(pools, ids[i], addrs[i]))
    && (forall i, j :: 0 <= i < j < |ids| ==> ids[i] != ids[j])
  }

  ghost predicate Subsequence<T(!new)>(xs: seq<T>, ys: seq<T>)
    decreases ys
  {
    xs == [] ||
    (ys != [] &&
     (Subsequence(xs, ys[..|ys| - 1]) ||
      (xs[|xs| - 1] == ys[|ys| - 1] && Subsequence(xs[..|xs| - 1], ys[..|ys| - 1]))))
  }

  /** The pool found for addr among the uncovered ones, if any. */
  lemma FoundPool(addr: Prefix, pools: seq<AddressPool>, covered: set<int>)
    requires ValidIDs(pools)
    ensures var id := PoolFor(addr, Uncovered(pools, covered));
      if id == -1 then forall p :: p in pools && Belongs(addr, p) ==> p.id in covered
      else id !in covered && Covers(pools, id, addr)
  {
    var uncovered := Uncovered(pools, covered);
    UncoveredMeans(pools, covered);
    PoolForIsBest(addr, uncovered);
    if NoPool(addr, uncovered, |uncovered|) {
      forall p | p in pools && Belongs(addr, p) ensures p.id in covered {
        assert p !in uncovered;
      }
    } else {
      var k :| BestPoolAt(addr, uncovered, |uncovered|, k) && PoolFor(addr, uncovered) == uncovered[k].id;
      assert uncovered[k] in uncovered;
      CoversMeans(pools, uncovered[k].id, addr);
    }
  }

  lemma {:induction false} KeptIsSubsequence(addrs: seq<Prefix>, pools: seq<AddressPool>)
    ensures Subsequence(Categorize(addrs, pools).keep, addrs)
  {
    if addrs != [] {
      var n := |addrs| - 1;
      KeptIsSubsequence(addrs[..n], pools);
      var before := Categorize(addrs[..n], pools);
      assert (before.keep + [addrs[n]])[..|before.keep|] == before.keep;
    }
  }

  /** The kept addresses are a subsequence, matched one-to-one to the covered pools. */
  lemma {:induction false} KeptAreMatched(addrs: seq<Prefix>, pools: seq<AddressPool>)
    requires ValidIDs(pools)
    ensures Subsequence(Categorize(addrs, pools).keep, addrs)
    ensures Matched(Categorize(addrs, pools).keep, Categorize(addrs, pools).ids, pools)
  {
    if addrs != [] {
      var n := |addrs| - 1;
      KeptAreMatched(addrs[..n], pools);
      FoundPool(addrs[n], pools, Categorize(addrs[..n], pools).Covered());
    }
    KeptIsSubsequence(addrs, pools);
  }

  /** An address is dropped exactly when every pool that contains it is covered by an earlier address. */
  lemma DroppedOnlyIfCovered(addrs: seq<Prefix>, pools: seq<AddressPool>)
    requires ValidIDs(pools) && addrs != []
    ensures var n := |addrs| - 1;
      var before := Categorize(addrs[..n], pools);
      Categorize(addrs, pools).keep == before.keep <==>
        forall p :: p in pools && Belongs(addrs[n], p) ==> p.id in before.Covered()
  {
    var n := |addrs| - 1;
    var before := Categorize(addrs[..n], pools);
    var id := PoolFor(addrs[n], Uncovered(pools, before.Covered()));
    FoundPool(addrs[n], pools, before.Covered());
    if id != -1 {
      CoversMeans(pools, id, addrs[n]);
      assert |Categorize(addrs, pools).keep| == |before.keep| + 1;
    }
  }

  /** Two listed pools with one ID are the same pool. */
  lemma SameID(pools: seq<AddressPool>)
    requires ValidIDs(pools)
    ensures forall p, q :: p in pools && q in pools && p.id == q.id ==> p == q
  {
  }
}
