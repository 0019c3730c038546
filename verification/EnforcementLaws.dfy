/** Which devices the startup enforcement of the limit deletes, said of the
    fields of their rows alone. */
module EnforcementLaws {
  import opened Results
  import opened Tables
  import opened Priority
  import RowLaws

  // ---- The order on rows ----

  /** d may be deleted although k is kept: first the devices without an external ID go, then
      those without a time, then those without a session, and of equals the one that
      connected first; between two sessions without a time the lower row ID goes. */
  predicate MayGoBefore(s: Store, d: int, k: int)
    requires d in s.devices && k in s.devices
  {
    var x, y := s.devices[d], s.devices[k];
    && (y.externalID == "" ==> x.externalID == "")
    && ((x.externalID == "") == (y.externalID == "") ==>
          && (y.lastConnected == None ==> x.lastConnected == None)
          && ((x.lastConnected == None) == (y.lastConnected == None) ==>
                && (y.session == "" ==> x.session == "")
                && ((x.session == "") == (y.session == "") ==>
                      && (x.lastConnected.Some? && y.lastConnected.Some? ==>
                            x.lastConnected.value <= y.lastConnected.value)
                      && (x.lastConnected == None && x.session != "" ==> d <= k))))
  }

  lemma NotBeforeExactly(s: Store, d: int, k: int)
    requires d in s.devices && k in s.devices
    ensures !Before(RowOf(s, k), RowOf(s, d)) <==> MayGoBefore(s, d, k)
  {
  }

  // ---- Which devices go ----

  function ExcessOf(s: Store, u: int): int {
    var n := RowLaws.CountOf(s, u);
    if n <= s.limit then 0 else if s.limit < 0 then n else n - s.limit
  }

  /** The user's devices that are gone. */
  function Gone(s: Store, u: int, s': Store): set<int> {
    set id | id in s.devices && s.devices[id].owner == u && id !in s'.devices
  }

  /** The user's devices that are left. */
  function Kept(s: Store, u: int, s': Store): set<int> {
    set id | id in s.devices && s.devices[id].owner == u && id in s'.devices
  }

  /** Without failures each user loses exactly the excess, no kept device had to go before a
      deleted one, and what is kept stays as it was. */
  lemma EnforcesOnRows(s: Store, s': Store, u: int)
    requires EnforceStep(s, {}, s', Ok(())) && u in s.users
    ensures RowLaws.CountOf(s', u) == RowLaws.CountOf(s, u) - ExcessOf(s, u)
    ensures s' == s.(devices := s'.devices, addresses := s'.addresses)
    ensures forall k :: k in s'.devices ==> k in s.devices && s'.devices[k] == s.devices[k]
    ensures forall k :: k in s'.addresses ==> k in s.addresses && s'.addresses[k] == s.addresses[k]
    ensures forall d, k :: d in Gone(s, u, s') && k in Kept(s, u, s') ==> MayGoBefore(s, d, k)
  {
    EnforcementKeepsTheRight(s, s', u);
    RowLaws.CountIsRows(s, u);
    RowLaws.CountIsRows(s', u);
    forall d, k | d in Gone(s, u, s') && k in Kept(s, u, s') ensures MayGoBefore(s, d, k) {
      assert d in Rows(s, u) && d !in Rows(s', u);
      assert k in Rows(s', u);
      NotBeforeExactly(s, d, k);
    }
  }

  // ---- With failures ----

  /** The user's devices whose deletion fails. */
  function Stuck(s: Store, u: int, faults: set<Fault>): set<int> {
    set id | id in s.devices && s.devices[id].owner == u && (GetAdjacencies(id) in faults || DeleteRow(id) in faults)
  }

  /** When deletions fail, the others are made all the same: nothing is deleted beyond the
      excess or out of turn, and short of it only by devices whose deletion fails. */
  lemma GoesOnPastFailures(s: Store, faults: set<Fault>, s': Store, u: int)
    requires EnforceStep(s, faults, s', Ok(())) && u in s.users && ListDevicesOf(u) !in faults
    ensures Gone(s, u, s') !! Stuck(s, u, faults)
    ensures ExcessOf(s, u) - |Stuck(s, u, faults)| <= |Gone(s, u, s')| <= ExcessOf(s, u)
    ensures forall d, k :: d in Gone(s, u, s') && k in Kept(s, u, s') - Stuck(s, u, faults) ==> MayGoBefore(s, d, k)
  {
    var ids :| s' == Minus(s, ids) && Enforced(s, faults, ids);
    var rows: seq<Row> :|
      ListsDevices(s, u, rows) && ids * Rows(s, u) == Deletable(rows, Excess(|rows|, s.limit), faults)
      && (Excess(|rows|, s.limit) > 0 ==> SortedRows(rows));
    var n := Excess(|rows|, s.limit);
    assert Gone(s, u, s') == ids * Rows(s, u);
    ExcessIsDeleted(s, u, rows);
    RowLaws.CountIsRows(s, u);
    DeletableCount(s, u, rows, n, faults);
    forall d, k | d in Gone(s, u, s') && k in Kept(s, u, s') - Stuck(s, u, faults) ensures MayGoBefore(s, d, k) {
      DeletedInTurn(s, u, rows, n, faults, d, k);
    }
  }

  lemma DeletableCount(s: Store, u: int, rows: seq<Row>, n: nat, faults: set<Fault>)
    requires ListsDevices(s, u, rows) && n <= |rows|
    ensures Deletable(rows, n, faults) !! Stuck(s, u, faults)
    ensures n - |Stuck(s, u, faults)| <= |Deletable(rows, n, faults)| <= n
  {
    var all := Deletable(rows, n, {});
    FirstRows(s, u, rows, n);
    DeletableOrStuck(s, u, rows, n, faults);
    NoSmaller(all, Deletable(rows, n, faults));
    SubsetIsSmaller(all - Deletable(rows, n, faults), Stuck(s, u, faults));
  }

  lemma DeletableOrStuck(s: Store, u: int, rows: seq<Row>, n: nat, faults: set<Fault>)
    requires ListsDevices(s, u, rows) && n <= |rows|
    ensures Deletable(rows, n, faults) == Deletable(rows, n, {}) - Stuck(s, u, faults)
    ensures Deletable(rows, n, {}) - Deletable(rows, n, faults) <= Stuck(s, u, faults)
  {
    forall i | 0 <= i < n ensures rows[i].id in Stuck(s, u, faults) <==> CannotDelete(rows[i].id, faults) {
      assert Owns(s, u, rows[i].id);
    }
    forall id | id in Deletable(rows, n, {}) ensures id in Stuck(s, u, faults) || id in Deletable(rows, n, faults) {
      var i :| 0 <= i < n && rows[i].id == id;
    }
  }

  lemma SubsetIsSmaller(a: set<int>, b: set<int>)
    requires a <= b
    ensures |a| <= |b|
  {
    NoSmaller(b, a);
  }

  lemma DeletedInTurn(s: Store, u: int, rows: seq<Row>, n: nat, faults: set<Fault>, d: int, k: int)
    requires ListsDevices(s, u, rows) && n <= |rows| && (n > 0 ==> SortedRows(rows))
    requires d in Deletable(rows, n, faults) && Owns(s, u, k)
    requires k !in Deletable(rows, n, faults) && k !in Stuck(s, u, faults)
    ensures d in s.devices && MayGoBefore(s, d, k)
  {
    var i :| 0 <= i < n && rows[i].id == d;
    var j :| 0 <= j < |rows| && rows[j].id == k;
    assert Owns(s, u, rows[i].id) && rows[i] == RowOf(s, d) && rows[j] == RowOf(s, k);
    assert j >= n;
    NotBeforeExactly(s, d, k);
  }
}
