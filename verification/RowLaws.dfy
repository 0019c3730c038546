/** What the operations do to the device table, said of rows, addresses and
    literal values alone: these lemmas name none of the predicates that the
    operations' contracts are made of. */
module RowLaws {
  import opened Results
  import opened Arithmetic
  import opened Octets
  import opened Masks
  import opened AddrRanges
  import opened AddressPools
  import opened Tables
  import opened Slots
  import opened Invariants
  import IpText

  // ---- Free addresses ----

  /** The pool's ends are in order and in one block. */
  predicate Buildable(pool: AddressPool) {
    pool.start <= pool.end && BlockStart(pool.start, pool.mask) == BlockStart(pool.end, pool.mask)
  }

  /** a lies in the pool, is neither the first nor the last of its block, and no device
      or server has it. */
  ghost predicate FreeIn(s: Store, pool: AddressPool, a: int) {
    && pool.start <= a <= pool.end
    && a != BlockStart(a, pool.mask) && a != BlockStart(a, pool.mask) + Pow2(32 - pool.mask) - 1
    && Untaken(s, a)
  }

  ghost predicate Untaken(s: Store, a: int) {
    && (forall id, i :: id in s.addresses && 0 <= i < |s.addresses[id]| ==> s.addresses[id][i].addr != a)
    && (forall i :: 0 <= i < |s.servers| ==> s.servers[i].addr != a)
  }

  ghost predicate LeastFreeIn(s: Store, pool: AddressPool, p: Prefix) {
    p.bits == pool.mask && FreeIn(s, pool, p.addr) && forall a: Addr :: FreeIn(s, pool, a) ==> p.addr <= a
  }

  lemma BuildableIsOk(pool: AddressPool)
    ensures PoolRange(pool).Ok? <==> Buildable(pool)
  {
    SubnetIsBlock(Prefix(pool.start, pool.mask));
    SubnetIsBlock(Prefix(pool.end, pool.mask));
  }

  lemma EndsAreBlockEnds(pool: AddressPool, a: Addr)
    requires PoolRange(pool).Ok? && pool.start <= a <= pool.end
    ensures var low := PoolRange(pool).value.LoPrefix();
      && ToSubnetAddr(low).addr == BlockStart(a, pool.mask)
      && Broadcast(low).addr == BlockStart(a, pool.mask) + Pow2(32 - pool.mask) - 1
  {
    SubnetIsBlock(Prefix(a, pool.mask));
    RangeWithinSubnet(PoolRange(pool).value, a);
  }

  lemma AvailableIsFree(s: Store, pool: AddressPool, a: Addr)
    requires PoolRange(pool).Ok?
    ensures Available(PoolRange(pool).value, Used(s), a) <==> FreeIn(s, pool, a)
  {
    if pool.start <= a <= pool.end {
      EndsAreBlockEnds(pool, a);
    }
    UsedAreTaken(s, a);
  }

  lemma UsedAreTaken(s: Store, a: Addr)
    ensures a !in Used(s) <==> Untaken(s, a)
  {
    assert a in Used(s) <==> InUse(s, a);
  }

  /** What is chosen for a pool is its least free address, under the pool's mask. */
  lemma ChosenIsLeastFree(s: Store, pool: AddressPool, p: Prefix)
    ensures FirstFree(s, pool, p) <==> Buildable(pool) && LeastFreeIn(s, pool, p)
  {
    BuildableIsOk(pool);
    if PoolRange(pool).Ok? {
      forall a: Addr ensures Available(PoolRange(pool).value, Used(s), a) <==> FreeIn(s, pool, a) {
        AvailableIsFree(s, pool, a);
      }
    }
  }

  lemma NoneIsFree(s: Store, pool: AddressPool)
    ensures NoneFree(s, pool) <==> Buildable(pool) && forall a: Addr :: !FreeIn(s, pool, a)
  {
    BuildableIsOk(pool);
    if PoolRange(pool).Ok? {
      forall a: Addr ensures Available(PoolRange(pool).value, Used(s), a) <==> FreeIn(s, pool, a) {
        AvailableIsFree(s, pool, a);
      }
    }
  }

  /** One least free address for each pool. */
  ghost predicate OneEach(s: Store, pools: seq<AddressPool>, addrs: seq<Prefix>) {
    |addrs| == |pools| && forall i :: 0 <= i < |pools| ==> Buildable(pools[i]) && LeastFreeIn(s, pools[i], addrs[i])
  }

  lemma AllocatedIsOneEach(s: Store, pools: seq<AddressPool>, addrs: seq<Prefix>)
    ensures Allocated(s, pools, addrs) <==> OneEach(s, pools, addrs)
  {
    if |addrs| == |pools| {
      forall i | 0 <= i < |pools| ensures
        FirstFree(s, pools[i], addrs[i]) <==> Buildable(pools[i]) && LeastFreeIn(s, pools[i], addrs[i])
      {
        ChosenIsLeastFree(s, pools[i], addrs[i]);
      }
    }
  }

  ghost predicate Exhausted(s: Store, pool: AddressPool) {
    Buildable(pool) ==> forall a: Addr :: !FreeIn(s, pool, a)
  }

  ghost predicate SomeExhausted(s: Store, pools: seq<AddressPool>) {
    exists i :: 0 <= i < |pools| && Exhausted(s, pools[i])
  }

  lemma CannotAllocateExactly(s: Store, pools: seq<AddressPool>)
    ensures CannotAllocate(s, pools) <==> SomeExhausted(s, pools)
  {
    forall i | 0 <= i < |pools|
      ensures (PoolRange(pools[i]).Err? || NoneFree(s, pools[i])) <==> Exhausted(s, pools[i])
    {
      BuildableIsOk(pools[i]);
      NoneIsFree(s, pools[i]);
    }
  }

  lemma NotBoth(s: Store, pools: seq<AddressPool>, addrs: seq<Prefix>)
    requires OneEach(s, pools, addrs)
    ensures !SomeExhausted(s, pools)
  {
    forall i | 0 <= i < |pools| ensures !Exhausted(s, pools[i]) {
      assert FreeIn(s, pools[i], addrs[i].addr);
    }
  }

  // ---- Assignments: the answer ----

  /** A successful call answers the external ID it was given, or 21 zeros for none, and
      a row of the user has that ID with the new session and time. */
  lemma AnswersGivenID(s: Store, u: int, session: string, ext: string, info: string, now: int,
                       faults: set<Fault>, s': Store, key: string)
    requires AssignStep(s, u, session, ext, info, now, faults, s', Ok(key))
    ensures ext != "" ==> key == ext
    ensures ext == "" ==> key == "000000000000000000000"
    ensures exists id ::
      && id in s'.devices && s'.devices[id].owner == u && s'.devices[id].externalID == key
      && s'.devices[id].session == session && s'.devices[id].lastConnected == Some(now)
  {
    var slot :| Chosen(s, u, key, slot) && Assigned(s, u, key, session, info, now, slot, s');
    var id := if slot.NewRow? then s.nextID else slot.id;
    assert id in s'.devices && s'.devices[id].owner == u && s'.devices[id].externalID == key;
  }

  /** Devices with different external IDs never share an answer. */
  lemma DifferentIDsDifferentAnswers(s: Store, t: Store, u: int, v: int, session: string, session': string,
                                     ext: string, ext': string, info: string, info': string, now: int, now': int,
                                     faults: set<Fault>, faults': set<Fault>, s': Store, t': Store,
                                     key: string, key': string)
    requires AssignStep(s, u, session, ext, info, now, faults, s', Ok(key))
    requires AssignStep(t, v, session', ext', info', now', faults', t', Ok(key'))
    requires ext != "" && ext' != "" && ext != ext'
    ensures key != key'
  {
    AnswersGivenID(s, u, session, ext, info, now, faults, s', key);
    AnswersGivenID(t, v, session', ext', info', now', faults', t', key');
  }

  // ---- Assignments: the five cases ----

  /** The row that a slot taken over gets. */
  function TakenOver(u: int, key: string, session: string, info: string, now: int): Device {
    Device(u, key, session, Some(now), if info == "" then None else Some(info))
  }

  predicate NoLater(d: Device, e: Device) {
    d.lastConnected.None? || (e.lastConnected.Some? && d.lastConnected.value <= e.lastConnected.value)
  }

  /** The tables with one more row. */
  function WithRow(s: Store, d: Device, addrs: seq<Prefix>): Store {
    s.(devices := s.devices[s.nextID := d], addresses := s.addresses[s.nextID := addrs], nextID := s.nextID + 1)
  }

  /** No row of the user's has the external ID, and none is free. */
  ghost predicate NeedsSlot(s: Store, u: int, key: string) {
    forall id :: id in s.devices && s.devices[id].owner == u ==>
      s.devices[id].externalID != key && s.devices[id].externalID != ""
  }

  function CountOf(s: Store, u: int): int {
    |set id | id in s.devices && s.devices[id].owner == u|
  }

  lemma CountIsRows(s: Store, u: int)
    ensures CountOf(s, u) == |Rows(s, u)|
  {
    assert Rows(s, u) == set id | id in s.devices && s.devices[id].owner == u;
  }

  /** Case 1: a device with a row keeps it, and only its session and time change. */
  lemma ReusesOwnRow(s: Store, u: int, session: string, ext: string, info: string, now: int,
                     faults: set<Fault>, s': Store, key: string, id: int)
    requires Inv(s) && AssignStep(s, u, session, ext, info, now, faults, s', Ok(key))
    requires id in s.devices && s.devices[id].owner == u && s.devices[id].externalID == key
    ensures s' == s.(devices := s.devices[id := s.devices[id].(session := session, lastConnected := Some(now))])
  {
    AnswersGivenID(s, u, session, ext, info, now, faults, s', key);
    assert Holds(s, u, key, id);
    var slot :| Chosen(s, u, key, slot) && Assigned(s, u, key, session, info, now, slot, s');
    assert SameKey(s.devices[slot.id], s.devices[id]);
  }

  /** Case 2: otherwise a row without an external ID is taken over. */
  lemma TakesFreeRow(s: Store, u: int, session: string, ext: string, info: string, now: int,
                     faults: set<Fault>, s': Store, key: string, free: int)
    requires AssignStep(s, u, session, ext, info, now, faults, s', Ok(key))
    requires forall id :: id in s.devices && s.devices[id].owner == u ==> s.devices[id].externalID != key
    requires free in s.devices && s.devices[free].owner == u && s.devices[free].externalID == ""
    ensures exists id ::
      && id in s.devices && s.devices[id].owner == u && s.devices[id].externalID == ""
      && s' == s.(devices := s.devices[id := TakenOver(u, key, session, info, now)])
  {
    assert Holds(s, u, "", free);
    var slot :| Chosen(s, u, key, slot) && Assigned(s, u, key, session, info, now, slot, s');
    assert s.devices[slot.id].owner == u;
  }

  /** Case 3: otherwise, under the limit, a row is inserted, with one least free address
      of each pool of the user's template. */
  lemma InsertsRow(s: Store, u: int, session: string, ext: string, info: string, now: int,
                   faults: set<Fault>, s': Store, key: string)
    requires AssignStep(s, u, session, ext, info, now, faults, s', Ok(key))
    requires NeedsSlot(s, u, key) && CountOf(s, u) < s.limit
    ensures u in s.templates && exists addrs ::
      OneEach(s, s.templates[u], addrs) && s' == WithRow(s, TakenOver(u, key, session, info, now), addrs)
  {
    CountIsRows(s, u);
    var slot :| Chosen(s, u, key, slot) && Assigned(s, u, key, session, info, now, slot, s');
    assert slot.NewRow?;
    var d := NewDevice(u, key, info).(session := session, lastConnected := Some(now));
    var addrs :| Allocated(s, s.templates[u], addrs) && s' == Inserted(s, d, addrs);
    AllocatedIsOneEach(s, s.templates[u], addrs);
  }

  /** Case 4a: otherwise, of the rows without a session, one that connected first is taken over. */
  lemma OverwritesOldestInactive(s: Store, u: int, session: string, ext: string, info: string, now: int,
                                 faults: set<Fault>, s': Store, key: string, inactive: int)
    requires AssignStep(s, u, session, ext, info, now, faults, s', Ok(key))
    requires NeedsSlot(s, u, key) && CountOf(s, u) >= s.limit
    requires inactive in s.devices && s.devices[inactive].owner == u && s.devices[inactive].session == ""
    ensures exists id ::
      && id in s.devices && s.devices[id].owner == u && s.devices[id].session == ""
      && s' == s.(devices := s.devices[id := TakenOver(u, key, session, info, now)])
      && forall j :: j in s.devices && s.devices[j].owner == u && s.devices[j].session == "" ==>
           NoLater(s.devices[id], s.devices[j])
  {
    CountIsRows(s, u);
    var slot :| Chosen(s, u, key, slot) && Assigned(s, u, key, session, info, now, slot, s');
    assert inactive in Inactive(s, u);
    assert slot.Overwrite?;
    assert slot.id in Inactive(s, u);
    forall j | j in s.devices && s.devices[j].owner == u && s.devices[j].session == ""
      ensures NoLater(s.devices[slot.id], s.devices[j])
    {
      assert j in Inactive(s, u);
    }
  }

  /** Case 4b: otherwise every row has a session, and one that connected first is taken over. */
  lemma KicksOldest(s: Store, u: int, session: string, ext: string, info: string, now: int,
                    faults: set<Fault>, s': Store, key: string)
    requires AssignStep(s, u, session, ext, info, now, faults, s', Ok(key))
    requires NeedsSlot(s, u, key) && CountOf(s, u) >= s.limit
    requires forall j :: j in s.devices && s.devices[j].owner == u ==> s.devices[j].session != ""
    ensures exists id ::
      && id in s.devices && s.devices[id].owner == u
      && s' == s.(devices := s.devices[id := TakenOver(u, key, session, info, now)])
      && forall j :: j in s.devices && s.devices[j].owner == u ==> NoLater(s.devices[id], s.devices[j])
  {
    CountIsRows(s, u);
    var slot :| Chosen(s, u, key, slot) && Assigned(s, u, key, session, info, now, slot, s');
    assert slot.Kick?;
    assert slot.id in Rows(s, u);
    forall j | j in s.devices && s.devices[j].owner == u ensures NoLater(s.devices[slot.id], s.devices[j]) {
      assert j in Rows(s, u);
    }
  }

  // ---- Assignments: failing ----

  predicate IDChar(c: char) {
    c == '_' || c == '-' || '0' <= c <= '9' || 'a' <= c <= 'z' || 'A' <= c <= 'Z'
  }

  predicate GoodArguments(u: int, session: string, ext: string) {
    session != "" && u > 0 && (ext == "" || (|ext| == 21 && forall i :: 0 <= i < |ext| ==> IDChar(ext[i])))
  }

  lemma AlphabetIsIDChars(c: char)
    ensures c in NANO_ID_ALPHABET <==> IDChar(c)
  {
    AreDigits(c);
    AreLowercase(c);
    AreUppercase(c);
    assert c in NANO_ID_ALPHABET <==> c in "_-" || c in DIGITS || c in LOWERCASE || c in UPPERCASE;
  }

  lemma AreDigits(c: char)
    ensures c in DIGITS <==> '0' <= c <= '9'
  {
    if '0' <= c <= '9' {
      assert DIGITS[(c - '0') as int] == c;
    }
  }

  lemma AreLowercase(c: char)
    ensures c in LOWERCASE <==> 'a' <= c <= 'z'
  {
    if 'a' <= c <= 'z' {
      assert LOWERCASE[(c - 'a') as int] == c;
    }
  }

  lemma AreUppercase(c: char)
    ensures c in UPPERCASE <==> 'A' <= c <= 'Z'
  {
    if 'A' <= c <= 'Z' {
      assert UPPERCASE[(c - 'A') as int] == c;
    }
  }

  lemma GoodArgumentsExactly(u: int, session: string, ext: string)
    ensures ValidCall(u, session, ext) <==> GoodArguments(u, session, ext)
  {
    forall i | 0 <= i < |ext| ensures ext[i] in NANO_ID_ALPHABET <==> IDChar(ext[i]) {
      AlphabetIsIDChars(ext[i]);
    }
  }

  /** The user can be given no slot, not even one that is in use. */
  ghost predicate NoneToGive(s: Store, u: int) {
    || u !in s.templates
    || (CountOf(s, u) < s.limit && SomeExhausted(s, s.templates[u]))
    || s.limit <= CountOf(s, u) == 0
  }

  /** Without outside failures, a call fails exactly on bad arguments, or when a slot is
      needed and the user has no template, no address is left for one under the limit, or the
      limit leaves no slot at all. It then changes nothing. */
  lemma AssignFailsExactly(s: Store, u: int, session: string, ext: string, info: string, now: int,
                           s': Store, r: Result<string, Error>)
    requires AssignStep(s, u, session, ext, info, now, {}, s', r)
    ensures var key := if ext == "" then "000000000000000000000" else ext;
      r.Err? <==> !GoodArguments(u, session, ext) || (NeedsSlot(s, u, key) && NoneToGive(s, u))
    ensures !GoodArguments(u, session, ext) ==> r == Err(InvalidData)
    ensures r.Err? ==> s' == s
  {
    var key := if ext == "" then "000000000000000000000" else ext;
    GoodArgumentsExactly(u, session, ext);
    NeedsSlotExactly(s, u, key);
    CountIsRows(s, u);
    if u in s.templates {
      CannotAllocateExactly(s, s.templates[u]);
    }
    if r.Ok? {
      GivesSlot(s, u, session, ext, info, now, s', key);
    }
  }

  lemma NeedsSlotExactly(s: Store, u: int, key: string)
    ensures NeedsSlot(s, u, key) <==> !HasKey(s, u, key) && !HasKey(s, u, "")
  {
    if !HasKey(s, u, key) && !HasKey(s, u, "") {
      forall id | id in s.devices && s.devices[id].owner == u
        ensures s.devices[id].externalID != key && s.devices[id].externalID != ""
      {
        assert !Holds(s, u, key, id) && !Holds(s, u, "", id);
      }
    }
  }

  lemma GivesSlot(s: Store, u: int, session: string, ext: string, info: string, now: int, s': Store, key: string)
    requires AssignStep(s, u, session, ext, info, now, {}, s', Ok(key))
    ensures NoneReusable(s, u, key) || HasKey(s, u, key) || HasKey(s, u, "")
    ensures u in s.templates && !HasKey(s, u, key) && !HasKey(s, u, "") && |Rows(s, u)| < s.limit ==>
      !SomeExhausted(s, s.templates[u])
    ensures !HasKey(s, u, key) && !HasKey(s, u, "") ==> !(s.limit <= |Rows(s, u)| == 0)
  {
    var slot :| Chosen(s, u, key, slot) && Assigned(s, u, key, session, info, now, slot, s');
    match slot
    case Reuse(id) => assert Holds(s, u, key, id);
    case Free(id) => assert Holds(s, u, "", id);
    case NewRow =>
      var d := NewDevice(u, key, info).(session := session, lastConnected := Some(now));
      var addrs :| Allocated(s, s.templates[u], addrs) && s' == Inserted(s, d, addrs);
      AllocatedIsOneEach(s, s.templates[u], addrs);
      NotBoth(s, s.templates[u], addrs);
    case Overwrite(id) => assert id in Rows(s, u);
    case Kick(id) => assert id in Rows(s, u);
  }

  /** Whatever fails, a call without success leaves all rows as they were, and adds at
      most one, of the user, without a session or a time. */
  lemma FailedAssignLeavesRows(s: Store, u: int, session: string, ext: string, info: string, now: int,
                               faults: set<Fault>, s': Store, r: Result<string, Error>)
    requires s.Valid() && AssignStep(s, u, session, ext, info, now, faults, s', r) && r.Err?
    ensures forall id :: id in s.devices ==>
      id in s'.devices && s'.devices[id] == s.devices[id] && s'.addresses[id] == s.addresses[id]
    ensures forall id :: id in s'.devices && id !in s.devices ==>
      id == s.nextID && s'.devices[id].owner == u && s'.devices[id].session == "" && s'.devices[id].lastConnected.None?
  {
  }

  // ---- Creating and deleting ----

  function Unconnected(u: int, ext: string, info: string): Device {
    Device(u, ext, "", None, if info == "" then None else Some(info))
  }

  /** Without outside failures, a device is created exactly when the user's template has room
      for one more and each of its pools a free address; it is as yet unconnected, and has
      the least free address of each pool. */
  lemma AutoCreatesExactly(s: Store, u: int, ext: string, info: string, s': Store, r: Result<int, Error>)
    requires AutoCreateStep(s, u, ext, info, {}, s', r)
    ensures r.Ok? <==> u in s.templates && CountOf(s, u) < s.limit && !SomeExhausted(s, s.templates[u])
    ensures r.Err? ==> s' == s
    ensures r.Ok? ==> r.value == s.nextID && exists addrs ::
      OneEach(s, s.templates[u], addrs) && s' == WithRow(s, Unconnected(u, ext, info), addrs)
  {
    CountIsRows(s, u);
    var pools := if u in s.templates then s.templates[u] else [];
    CannotAllocateExactly(s, pools);
    if addrs :| Allocated(s, pools, addrs) && CreateStep(s, u, ext, info, addrs, {}, s', r) {
      AllocatedIsOneEach(s, pools, addrs);
      NotBoth(s, pools, addrs);
    }
  }

  /** The texts are those of the addresses. */
  predicate TextsOf(texts: seq<string>, addrs: seq<Prefix>) {
    |texts| == |addrs| && forall i :: 0 <= i < |texts| ==> texts[i] == IpText.PrintPrefix(addrs[i])
  }

  /** A list of texts is parsed exactly when each is the text of a prefix. */
  lemma ParsesExactly(texts: seq<string>, addrs: seq<Prefix>)
    ensures ParsePrefixes(texts) == Some(addrs) <==> TextsOf(texts, addrs)
  {
    ParsedAreTexts(texts);
    if TextsOf(texts, addrs) {
      TextsAreParsed(texts, addrs);
    }
  }

  lemma {:induction false} ParsedAreTexts(texts: seq<string>)
    ensures match ParsePrefixes(texts) case Some(addrs) => TextsOf(texts, addrs) case None => true
  {
    if texts != [] && ParsePrefixes(texts).Some? {
      var n := |texts| - 1;
      var before, p := ParsePrefixes(texts[..n]).value, IpText.ParsePrefix(texts[n]).value;
      ParsedAreTexts(texts[..n]);
      IpText.PrefixText(texts[n], p);
      OneMoreText(texts[..n], before, texts[n], p);
      assert texts == texts[..n] + [texts[n]];
    }
  }

  lemma OneMoreText(texts: seq<string>, addrs: seq<Prefix>, text: string, p: Prefix)
    requires |texts| == |addrs|
    ensures TextsOf(texts + [text], addrs + [p]) <==> TextsOf(texts, addrs) && text == IpText.PrintPrefix(p)
  {
    var all, ps := texts + [text], addrs + [p];
    assert all[|texts|] == text && ps[|addrs|] == p;
    assert forall i :: 0 <= i < |texts| ==> all[i] == texts[i] && ps[i] == addrs[i];
  }

  lemma {:induction false} TextsAreParsed(texts: seq<string>, addrs: seq<Prefix>)
    requires TextsOf(texts, addrs)
    ensures ParsePrefixes(texts) == Some(addrs)
  {
    if texts == [] {
      assert addrs == [];
    } else {
      var n := |texts| - 1;
      var text, p := texts[n], addrs[n];
      assert texts == texts[..n] + [text] && addrs == addrs[..n] + [p];
      TextsAreParsed(texts[..n], addrs[..n]);
      IpText.PrefixText(text, p);
      ParsesOneMore(texts[..n], addrs[..n], text, p);
    }
  }

  /** What CreateDevice answers when it refuses, in the order of its checks. */
  lemma ManualCreateErrors(s: Store, u: int, keysValid: bool, texts: seq<string>, s': Store, r: Result<int, Error>)
    requires ManualCreateStep(s, u, keysValid, texts, {}, s', r)
    ensures !keysValid || texts == [] ==> r == Err(InvalidData)
    ensures keysValid && texts != [] ==>
      if forall addrs :: !TextsOf(texts, addrs) then r == Err(InvalidAddress)
      else if u !in s.templates then r == Err(NotFound)
      else CountOf(s, u) >= s.limit ==> r == Err(LimitExceeded)
  {
    CountIsRows(s, u);
    if ParsePrefixes(texts).Some? {
      ParsesExactly(texts, ParsePrefixes(texts).value);
    }
    if addrs :| TextsOf(texts, addrs) {
      ParsesExactly(texts, addrs);
    }
  }

  /** Without outside failures, CreateDevice succeeds exactly on valid keys and at least one
      address, all of which are the texts of prefixes, when the user's template has room. */
  lemma ManualCreatesExactly(s: Store, u: int, keysValid: bool, texts: seq<string>, s': Store, r: Result<int, Error>)
    requires ManualCreateStep(s, u, keysValid, texts, {}, s', r)
    ensures r.Ok? <==>
      keysValid && texts != [] && (exists addrs :: TextsOf(texts, addrs)) && u in s.templates && CountOf(s, u) < s.limit
    ensures r.Err? ==> s' == s
    ensures r.Ok? ==> r.value == s.nextID && exists addrs ::
      TextsOf(texts, addrs) && s' == WithRow(s, Device(u, "", "", None, None), addrs)
  {
    CountIsRows(s, u);
    if ParsePrefixes(texts).Some? {
      ParsesExactly(texts, ParsePrefixes(texts).value);
    }
    if addrs :| TextsOf(texts, addrs) {
      ParsesExactly(texts, addrs);
    }
  }

  /** A device is deleted exactly when it is there and neither of the two queries fails;
      nothing else changes. */
  lemma DeletesExactly(s: Store, id: int, faults: set<Fault>, s': Store, r: Result<(), Error>)
    requires s.Valid() && DeleteStep(s, id, faults, s', r)
    ensures r.Ok? <==> id in s.devices && GetAdjacencies(id) !in faults && DeleteRow(id) !in faults
    ensures r.Err? ==> s' == s
    ensures r.Ok? ==> s'.devices.Keys == s.devices.Keys - {id} == s'.addresses.Keys
    ensures s' == s.(devices := s'.devices, addresses := s'.addresses)
    ensures forall j :: j in s'.devices ==> s'.devices[j] == s.devices[j] && s'.addresses[j] == s.addresses[j]
  {
  }

  predicate LiesIn(a: int, pool: AddressPool) {
    pool.start <= a <= pool.end
  }

  ghost predicate ShareNone(p: AddressPool, q: AddressPool) {
    forall a: int :: LiesIn(a, p) ==> !LiesIn(a, q)
  }

  /** A user's template takes the pools exactly when no address lies in two of them. */
  lemma TemplateTakesExactly(s: Store, u: int, pools: seq<AddressPool>, s': Store, r: Result<(), Error>)
    requires FromPoolTable(pools) && TemplateStep(s, u, pools, {}, s', r)
    ensures r.Ok? <==> u in s.users && forall i, j :: 0 <= i < j < |pools| ==> ShareNone(pools[i], pools[j])
    ensures s' == if r.Ok? then s.(templates := s.templates[u := pools]) else s
  {
    forall i, j | 0 <= i < j < |pools| ensures ShareNone(pools[i], pools[j]) <==> !PoolsOverlap(pools[i], pools[j]) {
      var a: int := if pools[i].start <= pools[j].start then pools[j].start else pools[i].start;
      if PoolsOverlap(pools[i], pools[j]) {
        assert LiesIn(a, pools[i]) && LiesIn(a, pools[j]);
      }
    }
  }

  // ---- Clearing sessions ----

  /** From s to s', row id loses its session if lost says so, and nothing else changes. */
  ghost predicate OnlySession(s: Store, s': Store, id: int, lost: bool)
    requires id in s.devices
  {
    id in s'.devices && s'.devices[id] == if lost then s.devices[id].(session := "") else s.devices[id]
  }

  ghost predicate OnlyDevices(s: Store, s': Store) {
    s' == s.(devices := s'.devices) && s'.devices.Keys == s.devices.Keys
  }

  /** A sweep clears a session exactly if the row's time is before the threshold; a row
      without a time, or with one at or past the threshold, keeps its session. */
  lemma SweepExactly(s: Store, threshold: int, s': Store, id: int)
    requires ClearStep(s, Expired(s, threshold), s', true) && id in s.devices
    ensures OnlyDevices(s, s')
    ensures OnlySession(s, s', id, match s.devices[id].lastConnected case Some(t) => t < threshold case None => false)
  {
  }

  lemma DeviceClearExactly(s: Store, one: int, s': Store, id: int)
    requires ClearStep(s, {one}, s', true) && id in s.devices
    ensures OnlyDevices(s, s') && OnlySession(s, s', id, id == one)
  {
  }

  lemma UserClearExactly(s: Store, u: int, s': Store, id: int)
    requires ClearStep(s, Rows(s, u), s', true) && id in s.devices
    ensures OnlyDevices(s, s') && OnlySession(s, s', id, s.devices[id].owner == u)
  {
  }

  /** Every device of a user with certificate MFA loses its session, and no other device does. */
  lemma CertClearExactly(s: Store, s': Store, id: int)
    requires ClearStep(s, CertRows(s), s', true) && id in s.devices
    ensures OnlyDevices(s, s') && OnlySession(s, s', id, s.devices[id].owner in s.certUsers)
  {
  }

  lemma FailedClear(s: Store, ids: set<int>, s': Store)
    requires ClearStep(s, ids, s', false)
    ensures s' == s
  {
  }
}
