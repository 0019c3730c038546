/** What the device operations keep, over whole runs. */
module Invariants {
  import opened Results
  import opened Masks
  import opened AddressPools
  import opened Tables
  import opened Slots
  import opened Resync
  import opened Priority

  // ---- Runs ----

  datatype Op =
    | Assign(user: int, session: string, ext: string, info: string, now: int)
    | Create(user: int, keysValid: bool, texts: seq<string>)
    | Delete(id: int)
    | ResyncTemplate(user: int)
    | SetTemplate(user: int, pools: seq<AddressPool>)
    | ExpireSessions(threshold: int)
    | ClearDeviceSession(id: int)
    | ClearUserSessions(user: int)
    | ClearCertSessions
    | EnforceLimit

  datatype Call = Call(op: Op, faults: set<Fault>)

  /** The rows whose sessions a clearing operation matches. */
  function Matching(s: Store, op: Op): set<int> {
    match op
    case ExpireSessions(threshold) => Expired(s, threshold)
    case ClearDeviceSession(id) => {id}
    case ClearUserSessions(u) => Rows(s, u)
    case ClearCertSessions => CertRows(s)
    case _ => {}
  }

  ghost predicate Step(s: Store, c: Call, s': Store) {
    match c.op
    case Assign(u, session, ext, info, now) => exists r :: AssignStep(s, u, session, ext, info, now, c.faults, s', r)
    case Create(u, keysValid, texts) => exists r :: ManualCreateStep(s, u, keysValid, texts, c.faults, s', r)
    case Delete(id) => exists r :: DeleteStep(s, id, c.faults, s', r)
    case ResyncTemplate(u) => exists r :: ResyncStep(s, u, c.faults, s', r)
    case SetTemplate(u, pools) => FromPoolTable(pools) && exists r :: TemplateStep(s, u, pools, c.faults, s', r)
    case EnforceLimit => exists r :: EnforceStep(s, c.faults, s', r)
    case _ => exists ok :: ClearStep(s, Matching(s, c.op), s', ok)
  }

  /** states[i + 1] is what calls[i] makes of states[i]. */
  ghost predicate Run(states: seq<Store>, calls: seq<Call>) {
    |states| == |calls| + 1 && forall i :: 0 <= i < |calls| ==> Step(states[i], calls[i], states[i + 1])
  }

  // ---- The invariant ----

  /** A session comes with an external ID and a timestamp, and an unassigned slot has neither. */
  predicate GoodRow(d: Device) {
    && (d.session != "" ==> d.externalID != "" && d.lastConnected.Some?)
    && (d.externalID == "" ==> d.session == "" && d.lastConnected.None?)
  }

  predicate SameKey(d: Device, e: Device) {
    d.owner == e.owner && d.externalID == e.externalID
  }

  /** No two devices of one user share a non-empty external ID. */
  ghost predicate UniqueKeys(s: Store) {
    forall i, j :: i in s.devices && j in s.devices && i != j && SameKey(s.devices[i], s.devices[j]) ==>
      s.devices[i].externalID == ""
  }

  ghost predicate Inv(s: Store) {
    && s.Valid()
    && (forall id :: id in s.devices ==> GoodRow(s.devices[id]))
    && UniqueKeys(s)
    && (forall u :: u in s.templates ==> Disjoint(s.templates[u]))
  }

  /** The tables as the constructor leaves them. */
  function Empty(limit: int, users: set<int>): Store {
    Store(limit, users, {}, map[], [], map[], map[], 1)
  }

  lemma EmptyIsGood(limit: int, users: set<int>)
    ensures Inv(Empty(limit, users)) && AllDistinct(Empty(limit, users))
  {
  }

  lemma InsertKeeps(s: Store, d: Device, addrs: seq<Prefix>)
    requires Inv(s) && GoodRow(d) && d.owner in s.templates
    requires d.externalID != "" ==> !HasKey(s, d.owner, d.externalID)
    ensures Inv(Inserted(s, d, addrs))
  {
  }

  lemma UpdateKeeps(s: Store, id: int, d: Device)
    requires Inv(s) && id in s.devices && GoodRow(d) && d.owner == s.devices[id].owner
    requires d.externalID == s.devices[id].externalID || !HasKey(s, d.owner, d.externalID)
    ensures Inv(s.(devices := s.devices[id := d]))
  {
    var s' := s.(devices := s.devices[id := d]);
    forall i, j | i in s'.devices && j in s'.devices && i != j && SameKey(s'.devices[i], s'.devices[j])
      ensures s'.devices[i].externalID == ""
    {
      assert i != id ==> s'.devices[i] == s.devices[i];
      assert j != id ==> s'.devices[j] == s.devices[j];
      if i == id {
        assert Holds(s, d.owner, d.externalID, j);
      } else if j == id {
        assert Holds(s, d.owner, d.externalID, i);
      }
    }
  }

  lemma AssignKeeps(s: Store, u: int, session: string, ext: string, info: string, now: int,
                    faults: set<Fault>, s': Store, r: Result<string, Error>)
    requires Inv(s) && AssignStep(s, u, session, ext, info, now, faults, s', r)
    ensures Inv(s')
  {
    var key := EffectiveID(ext);
    if s' == s {
    } else if r.Ok? {
      var slot :| Chosen(s, u, key, slot) && Assigned(s, u, key, session, info, now, slot, s');
      AssignedKeeps(s, u, key, session, info, now, slot, s');
    } else {
      var addrs, n :| Allocated(s, s.templates[u], addrs) && 0 <= n <= |addrs| &&
        s' == Inserted(s, NewDevice(u, key, info), addrs[..n]);
      InsertKeeps(s, NewDevice(u, key, info), addrs[..n]);
    }
  }

  lemma AssignedKeeps(s: Store, u: int, key: string, session: string, info: string, now: int, slot: Slot, s': Store)
    requires Inv(s) && Chosen(s, u, key, slot) && Assigned(s, u, key, session, info, now, slot, s')
    requires key != "" && session != ""
    ensures Inv(s')
  {
    if slot.NewRow? {
      var d := NewDevice(u, key, info).(session := session, lastConnected := Some(now));
      var addrs :| Allocated(s, s.templates[u], addrs) && s' == Inserted(s, d, addrs);
      InsertKeeps(s, d, addrs);
    } else {
      UpdateKeeps(s, slot.id, Connected(s.devices[slot.id], slot, key, session, info, now));
    }
  }

  /** A creation that changes the tables inserts one device with some of its addresses. */
  lemma CreatedDevice(s: Store, u: int, addrs: seq<Prefix>, faults: set<Fault>, s': Store, r: Result<int, Error>)
    returns (n: nat)
    requires CreateStep(s, u, "", "", addrs, faults, s', r) && s' != s
    ensures n <= |addrs| && HasRoom(s, u) && s' == Inserted(s, NewDevice(u, "", ""), addrs[..n])
  {
    assert addrs[..|addrs|] == addrs;
    n :| 0 <= n <= |addrs| && s' == Inserted(s, NewDevice(u, "", ""), addrs[..n]);
  }

  lemma CreateKeeps(s: Store, u: int, addrs: seq<Prefix>, faults: set<Fault>, s': Store, r: Result<int, Error>)
    requires Inv(s) && CreateStep(s, u, "", "", addrs, faults, s', r)
    ensures Inv(s')
  {
    if s' != s {
      var n := CreatedDevice(s, u, addrs, faults, s', r);
      InsertKeeps(s, NewDevice(u, "", ""), addrs[..n]);
    }
  }

  /** Fewer devices, with the rows that are left as they were. */
  lemma SubsetKeeps(s: Store, s': Store)
    requires Inv(s) && s'.templates == s.templates && s'.users == s.users && s'.nextID == s.nextID
    requires s'.addresses.Keys == s'.devices.Keys
    requires forall id :: id in s'.devices ==> id in s.devices && s'.devices[id] == s.devices[id]
    ensures Inv(s')
  {
  }

  lemma ResyncKeeps(s: Store, u: int, faults: set<Fault>, s': Store, r: Result<Response, Error>)
    requires Inv(s) && ResyncStep(s, u, faults, s', r)
    ensures Inv(s')
  {
    if r.Ok? {
      var ids, outcomes :|
        ListsRows(s, u, ids) && ResyncAll(s, ids, s.templates[u], s', outcomes) && r.value == Summary(outcomes);
      RunFrame(s, ids, s.templates[u], s', outcomes);
      ResyncKeysMatch(s, ids, s.templates[u], s', outcomes);
      SubsetKeeps(s, s');
    }
  }

  lemma ClearKeeps(s: Store, ids: set<int>)
    requires Inv(s)
    ensures Inv(ClearSessions(s, ids))
  {
    var s' := ClearSessions(s, ids);
    assert forall id :: id in s'.devices ==>
      GoodRow(s.devices[id]) && s'.devices[id].externalID == s.devices[id].externalID;
  }

  lemma TemplateKeeps(s: Store, u: int, pools: seq<AddressPool>, faults: set<Fault>, s': Store, r: Result<(), Error>)
    requires Inv(s) && FromPoolTable(pools) && TemplateStep(s, u, pools, faults, s', r)
    ensures Inv(s')
  {
    if r.Ok? { DisjointMeansDistinct(pools); }
  }

  /** A CreateDevice call that changes the tables creates a device from the addresses it parsed. */
  lemma ManualCreates(s: Store, c: Call, s': Store) returns (addrs: seq<Prefix>, r: Result<int, Error>)
    requires c.op.Create? && Step(s, c, s') && s' != s
    ensures ParsePrefixes(c.op.texts) == Some(addrs) && CreateStep(s, c.op.user, "", "", addrs, c.faults, s', r)
  {
    r :| ManualCreateStep(s, c.op.user, c.op.keysValid, c.op.texts, c.faults, s', r);
    addrs := ParsePrefixes(c.op.texts).value;
  }

  lemma AssignStepKeeps(s: Store, c: Call, s': Store)
    requires Inv(s) && c.op.Assign? && Step(s, c, s')
    ensures Inv(s') && s'.limit == s.limit
  {
    var Assign(u, session, ext, info, now) := c.op;
    var r :| AssignStep(s, u, session, ext, info, now, c.faults, s', r);
    AssignKeeps(s, u, session, ext, info, now, c.faults, s', r);
    var change := AssignShape(s, u, session, ext, info, now, c.faults, s', r);
  }

  lemma CreateStepKeeps(s: Store, c: Call, s': Store)
    requires Inv(s) && c.op.Create? && Step(s, c, s') && s' != s
    ensures Inv(s') && s'.limit == s.limit
  {
    var addrs, r := ManualCreates(s, c, s');
    CreateKeeps(s, c.op.user, addrs, c.faults, s', r);
    var n := CreatedDevice(s, c.op.user, addrs, c.faults, s', r);
  }

  lemma ResyncStepKeeps(s: Store, c: Call, s': Store)
    requires Inv(s) && c.op.ResyncTemplate? && Step(s, c, s')
    ensures Inv(s') && s'.limit == s.limit
  {
    var r :| ResyncStep(s, c.op.user, c.faults, s', r);
    ResyncKeeps(s, c.op.user, c.faults, s', r);
    ResyncLimit(s, c.op.user, c.faults, s', r);
  }

  lemma TemplateStepKeeps(s: Store, c: Call, s': Store)
    requires Inv(s) && c.op.SetTemplate? && Step(s, c, s')
    ensures Inv(s') && s'.limit == s.limit
  {
    var r :| TemplateStep(s, c.op.user, c.op.pools, c.faults, s', r);
    TemplateKeeps(s, c.op.user, c.op.pools, c.faults, s', r);
  }

  lemma RemovalStepKeeps(s: Store, c: Call, s': Store)
    requires Inv(s) && (c.op.Delete? || c.op.EnforceLimit?) && Step(s, c, s')
    ensures Inv(s') && s'.limit == s.limit
  {
    SubsetKeeps(s, s');
  }

  lemma ClearStepKeeps(s: Store, c: Call, s': Store)
    requires Inv(s) && Step(s, c, s')
    requires c.op.ExpireSessions? || c.op.ClearDeviceSession? || c.op.ClearUserSessions? || c.op.ClearCertSessions?
    ensures Inv(s') && s'.limit == s.limit
  {
    ClearKeeps(s, Matching(s, c.op));
  }

  /** Every operation keeps the invariant, whatever fails. */
  lemma StepKeeps(s: Store, c: Call, s': Store)
    requires Inv(s) && Step(s, c, s')
    ensures Inv(s') && s'.limit == s.limit
  {
    if s' != s {
      match c.op
      case Assign(_, _, _, _, _) => AssignStepKeeps(s, c, s');
      case Create(_, _, _) => CreateStepKeeps(s, c, s');
      case ResyncTemplate(_) => ResyncStepKeeps(s, c, s');
      case SetTemplate(_, _) => TemplateStepKeeps(s, c, s');
      case Delete(_) => RemovalStepKeeps(s, c, s');
      case EnforceLimit => RemovalStepKeeps(s, c, s');
      case _ => ClearStepKeeps(s, c, s');
    }
  }

  lemma ResyncLimit(s: Store, u: int, faults: set<Fault>, s': Store, r: Result<Response, Error>)
    requires ResyncStep(s, u, faults, s', r)
    ensures s'.limit == s.limit
  {
    if r.Ok? {
      var ids, outcomes :|
        ListsRows(s, u, ids) && ResyncAll(s, ids, s.templates[u], s', outcomes) && r.value == Summary(outcomes);
      RunFrame(s, ids, s.templates[u], s', outcomes);
    }
  }

  lemma {:induction false} RunKeeps(states: seq<Store>, calls: seq<Call>, i: nat)
    requires Run(states, calls) && Inv(states[0]) && i < |states|
    ensures Inv(states[i]) && states[i].limit == states[0].limit
  {
    if i > 0 {
      RunKeeps(states, calls, i - 1);
      StepKeeps(states[i - 1], calls[i - 1], states[i]);
    }
  }

  // ---- The shape of an assignment ----

  datatype Change = Same | Insert(d: Device, addrs: seq<Prefix>) | Update(id: int, d: Device)

  ghost predicate Changed(s: Store, u: int, change: Change, s': Store) {
    match change
    case Same => s' == s
    case Insert(d, addrs) => d.owner == u && HasRoom(s, u) && s' == Inserted(s, d, addrs)
    case Update(id, d) => Owns(s, u, id) && d.owner == u && s' == s.(devices := s.devices[id := d])
  }

  lemma AssignShape(s: Store, u: int, session: string, ext: string, info: string, now: int,
                    faults: set<Fault>, s': Store, r: Result<string, Error>) returns (change: Change)
    requires AssignStep(s, u, session, ext, info, now, faults, s', r)
    ensures Changed(s, u, change, s')
  {
    var key := EffectiveID(ext);
    if s' == s {
      return Same;
    } else if r.Ok? {
      var slot :| Chosen(s, u, key, slot) && Assigned(s, u, key, session, info, now, slot, s');
      if slot.NewRow? {
        var d := NewDevice(u, key, info).(session := session, lastConnected := Some(now));
        var addrs :| Allocated(s, s.templates[u], addrs) && s' == Inserted(s, d, addrs);
        return Insert(d, addrs);
      } else {
        return Update(slot.id, Connected(s.devices[slot.id], slot, key, session, info, now));
      }
    } else {
      var addrs, n :| Allocated(s, s.templates[u], addrs) && 0 <= n <= |addrs| &&
        s' == Inserted(s, NewDevice(u, key, info), addrs[..n]);
      return Insert(NewDevice(u, key, info), addrs[..n]);
    }
  }

  // ---- The limit ----

  /** How many devices a user has after a call. */
  ghost predicate CountBound(s: Store, s': Store, u: int) {
    |Rows(s', u)| <= |Rows(s, u)| || |Rows(s', u)| <= s.limit
  }

  lemma FewerRows(s: Store, s': Store, u: int)
    requires Rows(s', u) <= Rows(s, u)
    ensures |Rows(s', u)| <= |Rows(s, u)|
  {
    NoSmaller(Rows(s, u), Rows(s', u));
  }

  lemma InsertCounts(s: Store, d: Device, addrs: seq<Prefix>, u: int)
    requires s.Valid() && HasRoom(s, d.owner)
    ensures CountBound(s, Inserted(s, d, addrs), u)
    ensures Rows(Inserted(s, d, addrs), u) == Rows(s, u) + if u == d.owner then {s.nextID} else {}
  {
    assert Rows(Inserted(s, d, addrs), u) == Rows(s, u) + if u == d.owner then {s.nextID} else {};
  }

  lemma UpdateCounts(s: Store, id: int, d: Device, u: int)
    requires id in s.devices && d.owner == s.devices[id].owner
    ensures Rows(s.(devices := s.devices[id := d]), u) == Rows(s, u)
  {
  }

  lemma CreateCounts(s: Store, v: int, addrs: seq<Prefix>, faults: set<Fault>, s': Store, r: Result<int, Error>, u: int)
    requires Inv(s) && CreateStep(s, v, "", "", addrs, faults, s', r)
    ensures CountBound(s, s', u)
  {
    if s' != s {
      var n := CreatedDevice(s, v, addrs, faults, s', r);
      InsertCounts(s, NewDevice(v, "", ""), addrs[..n], u);
    }
  }

  lemma ResyncOnlyRemoves(s: Store, v: int, faults: set<Fault>, s': Store, r: Result<Response, Error>, u: int)
    requires ResyncStep(s, v, faults, s', r)
    ensures Rows(s', u) <= Rows(s, u)
  {
    if r.Ok? {
      var ids, outcomes :|
        ListsRows(s, v, ids) && ResyncAll(s, ids, s.templates[v], s', outcomes) && r.value == Summary(outcomes);
      RunFrame(s, ids, s.templates[v], s', outcomes);
      forall id | id in Rows(s', u) ensures id in Rows(s, u) {
        assert id in s'.devices && s'.devices[id].owner == u;
      }
    }
  }

  /** No call takes a user's device count above both what it was and the limit. */
  lemma StepCounts(s: Store, c: Call, s': Store, u: int)
    requires Inv(s) && Step(s, c, s')
    ensures CountBound(s, s', u)
  {
    match c.op
    case Assign(v, session, ext, info, now) =>
      var r :| AssignStep(s, v, session, ext, info, now, c.faults, s', r);
      AssignCounts(s, v, session, ext, info, now, c.faults, s', r, u);
    case Create(v, keysValid, texts) =>
      if s' != s {
        var addrs, r := ManualCreates(s, c, s');
        CreateCounts(s, v, addrs, c.faults, s', r, u);
      }
    case ResyncTemplate(v) =>
      var r :| ResyncStep(s, v, c.faults, s', r);
      ResyncOnlyRemoves(s, v, c.faults, s', r, u);
      FewerRows(s, s', u);
    case _ =>
      OthersOnlyRemove(s, c, s', u);
      FewerRows(s, s', u);
  }

  lemma OthersOnlyRemove(s: Store, c: Call, s': Store, u: int)
    requires Step(s, c, s') && !c.op.Assign? && !c.op.Create? && !c.op.ResyncTemplate?
    ensures Rows(s', u) <= Rows(s, u)
  {
    forall id | id in Rows(s', u) ensures id in Rows(s, u) {
      assert id in s'.devices && s'.devices[id].owner == u;
      assert id in s.devices && s.devices[id].owner == u;
    }
  }

  lemma AssignCounts(s: Store, v: int, session: string, ext: string, info: string, now: int,
                     faults: set<Fault>, s': Store, r: Result<string, Error>, u: int)
    requires Inv(s) && AssignStep(s, v, session, ext, info, now, faults, s', r)
    ensures CountBound(s, s', u)
  {
    var change := AssignShape(s, v, session, ext, info, now, faults, s', r);
    match change
    case Same =>
    case Insert(d, addrs) => InsertCounts(s, d, addrs, u);
    case Update(id, d) => UpdateCounts(s, id, d, u);
  }

  /** A user at or under the limit stays so through every run. */
  lemma {:induction false} RunCounts(states: seq<Store>, calls: seq<Call>, i: nat, u: int)
    requires Run(states, calls) && Inv(states[0]) && i < |states| && |Rows(states[0], u)| <= states[0].limit
    ensures |Rows(states[i], u)| <= states[0].limit
  {
    if i > 0 {
      RunCounts(states, calls, i - 1, u);
      RunKeeps(states, calls, i - 1);
      StepCounts(states[i - 1], calls[i - 1], states[i], u);
    }
  }

  // ---- One assignment ----

  lemma ChangeLeavesOthers(s: Store, u: int, change: Change, s': Store, v: int)
    requires s.Valid() && Changed(s, u, change, s') && v != u
    ensures Rows(s', v) == Rows(s, v)
    ensures forall id :: id in Rows(s, v) ==> s'.devices[id] == s.devices[id] && s'.addresses[id] == s.addresses[id]
  {
    assert forall id :: id in Rows(s, v) ==> id in s.devices && id in s.addresses && id != s.nextID;
    match change
    case Same =>
    case Insert(d, addrs) => InsertCounts(s, d, addrs, v);
    case Update(id, d) => UpdateCounts(s, id, d, v);
  }

  /** An assignment leaves every other user's devices and addresses as they were. */
  lemma AssignLeavesOthers(s: Store, u: int, session: string, ext: string, info: string, now: int,
                           faults: set<Fault>, s': Store, r: Result<string, Error>, v: int)
    requires Inv(s) && AssignStep(s, u, session, ext, info, now, faults, s', r) && v != u
    ensures Rows(s', v) == Rows(s, v)
    ensures forall id :: id in Rows(s, v) ==> s'.devices[id] == s.devices[id] && s'.addresses[id] == s.addresses[id]
  {
    var change := AssignShape(s, u, session, ext, info, now, faults, s', r);
    ChangeLeavesOthers(s, u, change, s', v);
  }

  /** After a successful assignment, looking the device up by its external ID finds
      one row only, and that row carries the new session and timestamp. */
  lemma AssignedIsFound(s: Store, u: int, session: string, ext: string, info: string, now: int,
                        faults: set<Fault>, s': Store, key: string)
    requires Inv(s) && AssignStep(s, u, session, ext, info, now, faults, s', Ok(key))
    ensures exists id :: id in s'.devices && Holds(s', u, key, id)
    ensures forall id :: id in s'.devices && Holds(s', u, key, id) ==>
      s'.devices[id].session == session && s'.devices[id].lastConnected == Some(now)
    ensures forall i, j :: i in s'.devices && j in s'.devices && Holds(s', u, key, i) && Holds(s', u, key, j) ==> i == j
  {
    AssignKeeps(s, u, session, ext, info, now, faults, s', Ok(key));
    var slot :| Chosen(s, u, key, slot) && Assigned(s, u, key, session, info, now, slot, s');
    var id := if slot.NewRow? then s.nextID else slot.id;
    assert Holds(s', u, key, id) && s'.devices[id].session == session && s'.devices[id].lastConnected == Some(now);
    forall j | j in s'.devices && Holds(s', u, key, j) ensures j == id {
      assert SameKey(s'.devices[id], s'.devices[j]);
    }
  }

  // ---- Live sessions ----

  /** A free slot that gets reused never carries a live session. */
  lemma FreeSlotHasNoSession(s: Store, u: int, key: string, id: int)
    requires Inv(s) && Chosen(s, u, key, Free(id))
    ensures s.devices[id].session == "" && s.devices[id].lastConnected.None?
  {
    assert GoodRow(s.devices[id]);
  }

  /** After an expiry sweep every live session is at least as recent as the
      threshold, although the statement skips rows without a timestamp. */
  lemma SweepLeavesRecent(s: Store, threshold: int, s': Store, id: int)
    requires Inv(s) && ClearStep(s, Expired(s, threshold), s', true)
    requires id in s'.devices && s'.devices[id].session != ""
    ensures s'.devices[id] == s.devices[id]
    ensures s'.devices[id].lastConnected.Some? && s'.devices[id].lastConnected.value >= threshold
  {
    assert GoodRow(s.devices[id]);
  }

  // ---- The two eviction policies ----

  /** The slot an assignment overwrites is one that enforcement would delete
      first: no device of the user strictly precedes it. */
  lemma PoliciesAgree(s: Store, u: int, key: string, slot: Slot, other: int)
    requires Inv(s) && Chosen(s, u, key, slot) && (slot.Free? || slot.Overwrite? || slot.Kick?)
    requires Owns(s, u, other)
    ensures !Before(RowOf(s, other), RowOf(s, slot.id))
  {
    assert GoodRow(s.devices[slot.id]) && GoodRow(s.devices[other]);
    if !slot.Free? {
      assert !Holds(s, u, "", slot.id) && !Holds(s, u, "", other);
      if slot.Kick? {
        assert other !in Inactive(s, u);
      }
    }
  }

  /** The agreement rests on the invariant: between a session without a timestamp and
      an older connection without a session, the two policies differ. */
  lemma PoliciesDisagreeWithoutInvariant() returns (s: Store)
    ensures !Inv(s) && Chosen(s, 1, "c", Overwrite(1))
    ensures Owns(s, 1, 1) && Owns(s, 1, 2) && Before(RowOf(s, 2), RowOf(s, 1))
  {
    s := Store(2, {1}, {}, map[1 := []], [],
      map[1 := Device(1, "a", "", Some(5), None), 2 := Device(1, "b", "live", None, None)],
      map[1 := [], 2 := []], 3);
    assert !GoodRow(s.devices[2]);
    assert Rows(s, 1) == {1, 2} && Inactive(s, 1) == {1};
  }
}
