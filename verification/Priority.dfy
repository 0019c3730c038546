/** The order in which excess devices are deleted (service/user/dpu_enforcement.go). */
module Priority {
  import opened Results
  import opened Tables
  import Sorting

  datatype Row = Row(id: int, device: Device)

  function RowOf(s: Store, id: int): Row
    requires id in s.devices
  {
    Row(id, s.devices[id])
  }

  /** The comparator of prioritizeDevicesForDeletion: a is deleted before b. */
  predicate Before(a: Row, b: Row) {
    var a', b' := a.device, b.device;
    if a'.externalID == "" && b'.externalID != "" then true
    else if a'.externalID != "" && b'.externalID == "" then false
    else if a'.lastConnected.None? && b'.lastConnected.Some? then true
    else if a'.lastConnected.Some? && b'.lastConnected.None? then false
    else if a'.session == "" && b'.session == "" then
      a'.lastConnected.Some? && b'.lastConnected.Some? && a'.lastConnected.value < b'.lastConnected.value
    else if a'.session == "" && b'.session != "" then true
    else if a'.session != "" && b'.session == "" then false
    else if a'.lastConnected.Some? && b'.lastConnected.Some? then a'.lastConnected.value < b'.lastConnected.value
    else a.id < b.id
  }

  /** The comparator is a strict weak order. */
  lemma BeforeIsStrictWeakOrder()
    ensures Sorting.StrictWeakOrder(Before)
  {
  }

  ghost predicate SortedRows(rows: seq<Row>) {
    Sorting.Sorted(rows, Before)
  }

  method PrioritizeDevicesForDeletion(rows: seq<Row>) returns (sorted: seq<Row>)
    ensures multiset(sorted) == multiset(rows) && SortedRows(sorted)
  {
    var copy := new Row[|rows|](i requires 0 <= i < |rows| => rows[i]);
    assert copy[..] == rows;
    BeforeIsStrictWeakOrder();
    Sorting.SortSlice(copy, Before);
    sorted := copy[..];
  }

  // ---- Enforcement ----

  /** rows lists the user's devices, each once. */
  ghost predicate ListsDevices(s: Store, u: int, rows: seq<Row>) {
    && (forall i :: 0 <= i < |rows| ==> Owns(s, u, rows[i].id) && rows[i] == RowOf(s, rows[i].id))
    && (forall id :: id in s.devices && Owns(s, u, id) ==> exists i :: 0 <= i < |rows| && rows[i].id == id)
    && (forall i, j :: 0 <= i < j < |rows| ==> rows[i].id != rows[j].id)
  }

  lemma ListingPermuted(s: Store, u: int, rows: seq<Row>, sorted: seq<Row>)
    requires ListsDevices(s, u, rows) && multiset(sorted) == multiset(rows)
    ensures ListsDevices(s, u, sorted) && |sorted| == |rows|
  {
    Sorting.SameElements(rows, sorted);
    Sorting.DistinctPermuted(rows, sorted);
    forall i | 0 <= i < |sorted| ensures Owns(s, u, sorted[i].id) && sorted[i] == RowOf(s, sorted[i].id) {
      assert sorted[i] in rows;
    }
    forall id | id in s.devices && Owns(s, u, id) ensures exists i :: 0 <= i < |sorted| && sorted[i].id == id {
      var k :| 0 <= k < |rows| && rows[k].id == id;
      assert rows[k] in sorted;
    }
  }

  /** How many of n devices are deleted. */
  function Excess(n: nat, limit: int): nat {
    if n <= limit then 0 else if limit < 0 then n else n - limit
  }

  /** The IDs of the first n rows that can be deleted. */
  ghost function Deletable(rows: seq<Row>, n: nat, faults: set<Fault>): set<int>
    requires n <= |rows|
  {
    set i | 0 <= i < n && !CannotDelete(rows[i].id, faults) :: rows[i].id
  }

  lemma DeletableStep(rows: seq<Row>, n: nat, faults: set<Fault>)
    requires n < |rows|
    ensures Deletable(rows, n + 1, faults) ==
      Deletable(rows, n, faults) + if CannotDelete(rows[n].id, faults) then {} else {rows[n].id}
  {
  }

  lemma NotYetDeleted(s: Store, u: int, rows: seq<Row>, n: nat, faults: set<Fault>)
    requires ListsDevices(s, u, rows) && n < |rows|
    ensures rows[n].id in s.devices && rows[n].id !in Deletable(rows, n, faults)
  {
    assert Owns(s, u, rows[n].id);
  }

  /** The devices of user u that one enforcement run deletes. */
  ghost predicate DeletedFor(s: Store, u: int, faults: set<Fault>, deleted: set<int>) {
    if ListDevicesOf(u) in faults then deleted == {}
    else exists rows: seq<Row> ::
      && ListsDevices(s, u, rows) && deleted == Deletable(rows, Excess(|rows|, s.limit), faults)
      && (Excess(|rows|, s.limit) > 0 ==> SortedRows(rows))
  }

  /** Deleting other users' devices first makes no difference. */
  lemma DeletedForOthersFirst(s: Store, ids: set<int>, u: int, faults: set<Fault>, deleted: set<int>)
    requires ids !! Rows(s, u) && DeletedFor(Minus(s, ids), u, faults, deleted)
    ensures DeletedFor(s, u, faults, deleted)
  {
    MinusRows(s, ids, u);
    if ListDevicesOf(u) !in faults {
      var rows: seq<Row> :|
        ListsDevices(Minus(s, ids), u, rows) && deleted == Deletable(rows, Excess(|rows|, s.limit), faults)
        && (Excess(|rows|, s.limit) > 0 ==> SortedRows(rows));
      forall id | id in s.devices && Owns(s, u, id) ensures exists i :: 0 <= i < |rows| && rows[i].id == id {
        assert id in Rows(s, u) && id !in ids;
        assert Owns(Minus(s, ids), u, id);
      }
      assert ListsDevices(s, u, rows);
    }
  }

  /** One more user's devices are deleted. */
  lemma EnforceOneMore(s: Store, ids: set<int>, u: int, faults: set<Fault>, deleted: set<int>)
    requires ids !! Rows(s, u) && deleted <= Rows(s, u)
    ensures (ids + deleted) * Rows(s, u) == deleted
    ensures forall v :: v != u ==> (ids + deleted) * Rows(s, v) == ids * Rows(s, v)
    ensures Minus(Minus(s, ids), deleted) == Minus(s, ids + deleted)
  {
    assert (ids + deleted) * Rows(s, u) == deleted * Rows(s, u);
    assert s.devices - ids - deleted == s.devices - (ids + deleted);
    assert s.addresses - ids - deleted == s.addresses - (ids + deleted);
  }

  /** Deleting one more device. */
  lemma MinusOneMore(s: Store, ids: set<int>, id: int, faults: set<Fault>, s': Store, r: Result<(), Error>)
    requires s.addresses.Keys == s.devices.Keys && id in s.devices && id !in ids
    requires DeleteStep(Minus(s, ids), id, faults, s', r)
    ensures r.Ok? <==> !CannotDelete(id, faults)
    ensures s' == Minus(s, ids + if CannotDelete(id, faults) then {} else {id})
  {
    assert s.devices - ids - {id} == s.devices - (ids + {id});
    assert s.addresses - ids - {id} == s.addresses - (ids + {id});
    assert ids + {} == ids;
  }

  function Minus(s: Store, ids: set<int>): Store {
    s.(devices := s.devices - ids, addresses := s.addresses - ids)
  }

  ghost predicate Enforced(s: Store, faults: set<Fault>, ids: set<int>) {
    ids <= s.devices.Keys && forall u :: u in s.users ==> DeletedFor(s, u, faults, ids * Rows(s, u))
  }

  /** EnforceDPULimit. */
  ghost predicate EnforceStep(s: Store, faults: set<Fault>, s': Store, r: Result<(), Error>) {
    if ListUsers in faults then s' == s && r == Err(QueryFailed)
    else r == Ok(()) && exists ids :: s' == Minus(s, ids) && Enforced(s, faults, ids)
  }

  // ---- What enforcement keeps ----

  /** Deletes the excess and keeps the rest, never one that the order puts strictly first. */
  lemma DeletedForUser(s: Store, u: int, deleted: set<int>)
    requires DeletedFor(s, u, {}, deleted)
    ensures deleted <= Rows(s, u) && |Rows(s, u) - deleted| == |Rows(s, u)| - Excess(|Rows(s, u)|, s.limit)
    ensures forall d, k :: d in deleted && k in Rows(s, u) - deleted ==> !Before(RowOf(s, k), RowOf(s, d))
  {
    var rows: seq<Row> :| ListsDevices(s, u, rows) && deleted == Deletable(rows, Excess(|rows|, s.limit), {})
      && (Excess(|rows|, s.limit) > 0 ==> SortedRows(rows));
    ExcessIsDeleted(s, u, rows);
    FirstAreDeleted(s, u, rows, Excess(|rows|, s.limit));
  }

  lemma ExcessIsDeleted(s: Store, u: int, rows: seq<Row>)
    requires ListsDevices(s, u, rows)
    ensures |rows| == |Rows(s, u)|
    ensures var deleted := Deletable(rows, Excess(|rows|, s.limit), {});
      deleted <= Rows(s, u) && |Rows(s, u) - deleted| == |rows| - Excess(|rows|, s.limit)
  {
    FirstRows(s, u, rows, |rows|);
    FirstRows(s, u, rows, Excess(|rows|, s.limit));
    AllRows(s, u, rows);
    NoSmaller(Rows(s, u), Deletable(rows, Excess(|rows|, s.limit), {}));
  }

  lemma FirstAreDeleted(s: Store, u: int, rows: seq<Row>, n: nat)
    requires ListsDevices(s, u, rows) && n <= |rows| && (n > 0 ==> SortedRows(rows))
    ensures forall d, k :: d in Deletable(rows, n, {}) && k in Rows(s, u) - Deletable(rows, n, {}) ==>
      d in s.devices && !Before(RowOf(s, k), RowOf(s, d))
  {
    forall d, k | d in Deletable(rows, n, {}) && k in Rows(s, u) - Deletable(rows, n, {})
      ensures d in s.devices && !Before(RowOf(s, k), RowOf(s, d))
    {
      DeletedComesFirst(s, u, rows, n, d, k);
    }
  }

  lemma AllRows(s: Store, u: int, rows: seq<Row>)
    requires ListsDevices(s, u, rows)
    ensures Deletable(rows, |rows|, {}) == Rows(s, u)
  {
    forall id | id in Rows(s, u) ensures id in Deletable(rows, |rows|, {}) {
      assert Owns(s, u, id);
      var i :| 0 <= i < |rows| && rows[i].id == id;
    }
  }

  lemma DeletedComesFirst(s: Store, u: int, rows: seq<Row>, n: nat, d: int, k: int)
    requires ListsDevices(s, u, rows) && SortedRows(rows) && n <= |rows|
    requires d in Deletable(rows, n, {}) && Owns(s, u, k) && k !in Deletable(rows, n, {})
    ensures Owns(s, u, d) && !Before(RowOf(s, k), RowOf(s, d))
  {
    var i :| 0 <= i < n && rows[i].id == d;
    var j :| 0 <= j < |rows| && rows[j].id == k;
    assert Owns(s, u, rows[i].id) && rows[i] == RowOf(s, d) && rows[j] == RowOf(s, k);
  }

  lemma {:induction false} FirstRows(s: Store, u: int, rows: seq<Row>, n: nat)
    requires ListsDevices(s, u, rows) && n <= |rows|
    ensures |Deletable(rows, n, {})| == n && Deletable(rows, n, {}) <= Rows(s, u)
  {
    if n > 0 {
      FirstRows(s, u, rows, n - 1);
      assert Deletable(rows, n, {}) == Deletable(rows, n - 1, {}) + {rows[n - 1].id};
    }
  }

  /** Without failures every user ends with at most the limit, users at or under it
      lose nothing, and no survivor strictly precedes a deleted device. */
  lemma EnforcementKeepsTheRight(s: Store, s': Store, u: int)
    requires EnforceStep(s, {}, s', Ok(())) && u in s.users
    ensures Rows(s', u) <= Rows(s, u)
    ensures |Rows(s', u)| == if |Rows(s, u)| <= s.limit then |Rows(s, u)| else if s.limit < 0 then 0 else s.limit
    ensures |Rows(s, u)| <= s.limit ==> Rows(s', u) == Rows(s, u)
    ensures forall d, k :: d in Rows(s, u) - Rows(s', u) && k in Rows(s', u) ==> !Before(RowOf(s, k), RowOf(s, d))
  {
    var ids :| s' == Minus(s, ids) && Enforced(s, {}, ids);
    DeletedForUser(s, u, ids * Rows(s, u));
    MinusRows(s, ids, u);
    SameSize(Rows(s', u), Rows(s, u));
  }

  lemma MinusRows(s: Store, ids: set<int>, u: int)
    ensures Rows(Minus(s, ids), u) == Rows(s, u) - ids * Rows(s, u)
  {
  }

  lemma SameSize<T>(a: set<T>, b: set<T>)
    requires a <= b
    ensures |a| == |b| ==> a == b
  {
    NoSmaller(b, a);
  }

  lemma NoSmaller<T>(a: set<T>, b: set<T>)
    requires b <= a
    ensures |a - b| == |a| - |b|
  {
    assert a == (a - b) + b;
  }
}
