/** The device operations of PostgresManager (service/user/device.go,
    service/user/session.go, service/user/dpu_enforcement.go). */
module Manager {
  import opened Results
  import opened Octets
  import opened Masks
  import opened AddrRanges
  import opened AddressPools
  import opened Tables
  import opened Slots
  import opened Resync
  import opened Priority
  import IpText

  /** The tables as the operations update them. Each call gets the set of places
      where it fails for an outside reason. */
  class DeviceManager {
    const limit: int
    var users: set<int>
    var certUsers: set<int>
    var templates: map<int, seq<AddressPool>>
    var servers: seq<Prefix>
    var devices: map<int, Device>
    var addresses: map<int, seq<Prefix>>
    var nextID: int

    function View(): Store
      reads this
    {
      Store(limit, users, certUsers, templates, servers, devices, addresses, nextID)
    }

    ghost predicate Valid()
      reads this
    {
      View().Valid()
    }

    constructor (limit: int, users: set<int>)
      ensures Valid()
      ensures View() == Store(limit, users, {}, map[], [], map[], map[], 1)
    {
      this.limit, this.users, certUsers := limit, users, {};
      templates, servers, devices, addresses, nextID := map[], [], map[], map[], 1;
    }

    // ---- Queries ----

    method GetDeviceByExternalIDAndUserID(key: string, u: int) returns (r: Option<int>)
      ensures match r
        case Some(id) => key != "" && Holds(View(), u, key, id)
        case None => key != "" ==> !HasKey(View(), u, key)
    {
      if id :| id in devices && devices[id].externalID == key != "" && devices[id].owner == u {
        return Some(id);
      }
      return None;
    }

    method GetDeviceWithNoExternalIDByUserID(u: int) returns (r: Option<int>)
      ensures match r case Some(id) => Holds(View(), u, "", id) case None => !HasKey(View(), u, "")
    {
      if id :| id in devices && devices[id].externalID == "" && devices[id].owner == u {
        return Some(id);
      }
      return None;
    }

    /** ORDER BY last_time_connected ASC NULLS FIRST LIMIT 1, over the given rows. */
    method Oldest(ids: set<int>) returns (r: Option<int>)
      requires ids <= devices.Keys
      ensures match r case Some(id) => IsOldest(View(), ids, id) case None => ids == {}
    {
      var todo := ids;
      r := None;
      while todo != {}
        invariant todo <= ids
        invariant r.None? ==> todo == ids
        invariant r.Some? ==> r.value in ids && forall j :: j in ids - todo ==>
          NotAfter(devices[r.value].lastConnected, devices[j].lastConnected)
      {
        var id := AnyOf(todo);
        if r.None? || !NotAfter(devices[r.value].lastConnected, devices[id].lastConnected) {
          r := Some(id);
        }
        todo := todo - {id};
      }
    }

    // ---- Allocating addresses ----

    /** All device and server addresses inside the subnet, whatever their masks. */
    method QueryUsedAddrsForSubnet(subnet: Prefix) returns (used: seq<Addr>)
      requires IsSubnetAddr(subnet)
      ensures forall a: Addr :: a in used <==> InUse(View(), a) && ToSubnetAddr(Prefix(a, subnet.bits)) == subnet
    {
      var prefixes := GetWireGuardIfaceAllAddrs();
      used := [];
      for i := 0 to |prefixes|
        invariant forall a: Addr :: a in used <==>
          (exists k :: 0 <= k < i && prefixes[k].addr == a) && ToSubnetAddr(Prefix(a, subnet.bits)) == subnet
      {
        if ToSubnetAddr(Prefix(prefixes[i].addr, subnet.bits)) == subnet {
          used := used + [prefixes[i].addr];
        }
      }
    }

    /** SELECT addr FROM device addresses UNION ALL server addresses. */
    method GetWireGuardIfaceAllAddrs() returns (prefixes: seq<Prefix>)
      ensures forall a: Addr :: InUse(View(), a) <==> exists k :: 0 <= k < |prefixes| && prefixes[k].addr == a
    {
      prefixes := servers;
      var todo := addresses.Keys;
      while todo != {}
        invariant todo <= addresses.Keys
        invariant forall i :: 0 <= i < |servers| ==> servers[i] in prefixes
        invariant forall id, i :: id in addresses.Keys - todo && 0 <= i < |addresses[id]| ==>
          addresses[id][i] in prefixes
        invariant forall k :: 0 <= k < |prefixes| ==> InUse(View(), prefixes[k].addr)
      {
        var id := AnyOf(todo);
        prefixes := prefixes + addresses[id];
        todo := todo - {id};
      }
    }

    method AllocateAddressFromPool(pool: AddressPool, faults: set<Fault>) returns (r: Result<Prefix, Error>)
      ensures r.Ok? ==> FirstFree(View(), pool, r.value)
      ensures r.Err? && r.error == NoAvailableAddress ==> NoneFree(View(), pool)
      ensures r.Err? ==> QueryUsedAddrs(pool.id) in faults || PoolRange(pool).Err? || NoneFree(View(), pool)
      ensures r.Err? && r.error.BadPool? <==> PoolRange(pool).Err?
      ensures r.Err? && faults == {} && PoolRange(pool).Ok? ==> r.error == NoAvailableAddress
    {
      var range := AddrRangeFromPrefixes(Prefix(pool.start, pool.mask), Prefix(pool.end, pool.mask));
      if range.Err? {
        return Err(BadPool(range.error));
      }
      if QueryUsedAddrs(pool.id) in faults {
        return Err(QueryFailed);
      }
      EndsOfSubnet(range.value.LoPrefix());
      var used := QueryUsedAddrsForSubnet(range.value.ToContainingSubnet());
      SubnetQueryIsEnough(View(), range.value, used);
      var first := FirstAvailableAddress(range.value, used);
      match first {
        case Ok(p) => return Ok(p);
        case Err(_) => return Err(NoAvailableAddress);
      }
    }

    method AllocateDeviceAddresses(u: int, faults: set<Fault>) returns (r: Result<seq<Prefix>, Error>)
      ensures var pools := if u in templates then templates[u] else [];
        if r.Ok? then Allocated(View(), pools, r.value) else faults == {} ==> CannotAllocate(View(), pools)
    {
      if GetPools in faults {
        return Err(QueryFailed);
      }
      var pools := if u in templates then templates[u] else [];
      var addrs: seq<Prefix> := [];
      for i := 0 to |pools|
        invariant Allocated(View(), pools[..i], addrs)
      {
        var addr := AllocateAddressFromPool(pools[i], faults);
        if addr.Err? {
          return Err(addr.error);
        }
        addrs := addrs + [addr.value];
      }
      return Ok(addrs);
    }

    // ---- Creating and deleting devices ----

    method CreateDeviceWithAutogenData(u: int, ext: string, info: string, faults: set<Fault>)
      returns (r: Result<int, Error>)
      requires Valid()
      modifies this
      ensures Valid() && AutoCreateStep(old(View()), u, ext, info, faults, View(), r)
    {
      if GenerateKeys in faults {
        return Err(QueryFailed);
      }
      var addrs := AllocateDeviceAddresses(u, faults);
      if addrs.Err? {
        return Err(addrs.error);
      }
      r := CreateDeviceInternal(u, ext, info, addrs.value, faults);
    }

    method CreateDeviceInternal(u: int, ext: string, info: string, addrs: seq<Prefix>, faults: set<Fault>)
      returns (r: Result<int, Error>)
      requires Valid()
      modifies this
      ensures Valid() && CreateStep(old(View()), u, ext, info, addrs, faults, View(), r)
    {
      if GetTemplate in faults || CountDevices in faults || EncryptKey in faults || InsertDevice in faults {
        return Err(QueryFailed);
      }
      if u !in templates {
        return Err(NotFound);
      }
      if |Rows(View(), u)| >= limit {
        return Err(LimitExceeded);
      }
      var id := nextID;
      devices := devices[id := NewDevice(u, ext, info)];
      addresses := addresses[id := []];
      assert addrs[..0] == [];
      nextID := id + 1;
      for i := 0 to |addrs|
        invariant View() == Inserted(old(View()), NewDevice(u, ext, info), addrs[..i])
      {
        if InsertAddress(i) in faults {
          return Err(QueryFailed);
        }
        addresses := addresses[id := addresses[id] + [addrs[i]]];
        assert addrs[..i + 1] == addrs[..i] + [addrs[i]];
        assert addresses == old(addresses)[id := addrs[..i + 1]];
      }
      assert addrs[..|addrs|] == addrs;
      if CreateAdjacencies in faults || DecryptKey in faults {
        return Err(QueryFailed);
      }
      return Ok(id);
    }

    // ---- Assigning slots ----

    method UpdateDeviceSessionAndLastTimeConnected(id: int, session: string, now: int)
      requires Valid() && id in devices
      modifies this`devices
      ensures Valid() && devices ==
        old(devices)[id := old(devices)[id].(session := session, lastConnected := Some(now))]
    {
      devices := devices[id := devices[id].(session := session, lastConnected := Some(now))];
    }

    method UpdateDeviceFromConfiguration(id: int, key: string, session: string, info: string, now: int)
      requires Valid() && id in devices
      modifies this`devices
      ensures Valid() && devices == old(devices)[id := old(devices)[id].(
        externalID := key, session := session, lastConnected := Some(now), information := TextOrNull(info))]
    {
      devices := devices[id := devices[id].(
        externalID := key, session := session, lastConnected := Some(now), information := TextOrNull(info))];
    }

    method AssignDeviceSlot(u: int, session: string, ext: string, info: string, now: int, faults: set<Fault>)
      returns (r: Result<string, Error>)
      requires Valid()
      modifies this
      ensures Valid() && AssignStep(old(View()), u, session, ext, info, now, faults, View(), r)
    {
      if !ValidCall(u, session, ext) {
        return Err(InvalidData);
      }
      var key := EffectiveID(ext);
      ghost var s := View();

      // Case 1: the device has a slot
      if FindByExternalID in faults {
        return Err(QueryFailed);
      }
      var device := GetDeviceByExternalIDAndUserID(key, u);
      if device.Some? {
        if UpdateSession in faults {
          return Err(QueryFailed);
        }
        UpdateDeviceSessionAndLastTimeConnected(device.value, session, now);
        SlotAssigned(s, u, session, ext, info, now, faults, View(), Reuse(device.value));
        return Ok(key);
      }

      // Case 2: a slot without an external ID is free
      if FindFree in faults {
        return Err(QueryFailed);
      }
      device := GetDeviceWithNoExternalIDByUserID(u);
      if device.Some? {
        if UpdateFromConfiguration in faults {
          return Err(QueryFailed);
        }
        UpdateDeviceFromConfiguration(device.value, key, session, info, now);
        SlotAssigned(s, u, session, ext, info, now, faults, View(), Free(device.value));
        return Ok(key);
      }

      // Case 3: the limit leaves room for a new slot
      if FindTemplate in faults || ListDevices in faults {
        return Err(QueryFailed);
      }
      if u !in templates {
        return Err(NotFound);
      }
      if |Rows(View(), u)| < limit {
        var created := CreateDeviceWithAutogenData(u, key, info, faults);
        if created.Err? {
          assert Chosen(s, u, key, NewRow);
          return Err(created.error);
        }
        if UpdateSession in faults {
          WholeDeviceIsHalf(s, u, key, info, View());
          return Err(QueryFailed);
        }
        UpdateDeviceSessionAndLastTimeConnected(created.value, session, now);
        SlotAssigned(s, u, session, ext, info, now, faults, View(), NewRow);
        return Ok(key);
      }

      // Case 4a: overwrite the oldest slot without a session
      if FindInactive in faults {
        return Err(QueryFailed);
      }
      device := Oldest(Inactive(View(), u));
      if device.Some? {
        if UpdateFromConfiguration in faults {
          return Err(QueryFailed);
        }
        UpdateDeviceFromConfiguration(device.value, key, session, info, now);
        SlotAssigned(s, u, session, ext, info, now, faults, View(), Overwrite(device.value));
        return Ok(key);
      }

      // Case 4b: every slot is active, kick the oldest
      if FindOldest in faults {
        return Err(QueryFailed);
      }
      device := Oldest(Rows(View(), u));
      if device.None? {
        return Err(QueryFailed);
      }
      if UpdateFromConfiguration in faults {
        return Err(QueryFailed);
      }
      UpdateDeviceFromConfiguration(device.value, key, session, info, now);
      SlotAssigned(s, u, session, ext, info, now, faults, View(), Kick(device.value));
      return Ok(key);
    }

    // ---- Other ways to create and delete devices ----

    /** Creates a device with keys and addresses the caller supplies. */
    method CreateDevice(u: int, keysValid: bool, texts: seq<string>, faults: set<Fault>) returns (r: Result<int, Error>)
      requires Valid()
      modifies this
      ensures Valid() && ManualCreateStep(old(View()), u, keysValid, texts, faults, View(), r)
    {
      if !keysValid || |texts| == 0 {
        return Err(InvalidData);
      }
      var addrs := ParseAddresses(texts);
      if addrs.None? {
        return Err(InvalidAddress);
      }
      r := CreateDeviceInternal(u, "", "", addrs.value, faults);
    }

    method ParseAddresses(texts: seq<string>) returns (r: Option<seq<Prefix>>)
      ensures r == ParsePrefixes(texts)
    {
      var addrs: seq<Prefix> := [];
      for i := 0 to |texts|
        invariant ParsePrefixes(texts[..i]) == Some(addrs)
      {
        assert texts[..i + 1][..i] == texts[..i];
        var addr := IpText.ParsePrefix(texts[i]);
        if addr.None? {
          PrefixFails(texts, i + 1);
          return None;
        }
        addrs := addrs + [addr.value];
      }
      assert texts[..|texts|] == texts;
      return Some(addrs);
    }

    method DeleteDevice(id: int, faults: set<Fault>) returns (r: Result<(), Error>)
      requires Valid()
      modifies this`devices, this`addresses
      ensures Valid() && DeleteStep(old(View()), id, faults, View(), r)
    {
      if GetAdjacencies(id) in faults || DeleteRow(id) in faults {
        return Err(QueryFailed);
      }
      if id !in devices {
        return Err(NotFound);
      }
      devices := devices - {id};
      addresses := addresses - {id};
      return Ok(());
    }

    /** Sets the pools of a user's device template, unless two of them overlap. */
    method SetDeviceTemplate(u: int, pools: seq<AddressPool>, faults: set<Fault>) returns (r: Result<(), Error>)
      requires Valid() && FromPoolTable(pools)
      modifies this`templates
      ensures Valid() && TemplateStep(old(View()), u, pools, faults, View(), r)
    {
      if faults != {} {
        return Err(QueryFailed);
      }
      if u !in users {
        return Err(NotFound);
      }
      if |pools| > 1 {
        var verified := VerifyPoolsNotOverlap(pools);
        if verified.Err? {
          return Err(InvalidData);
        }
      }
      DisjointMeansDistinct(pools);
      templates := templates[u := pools];
      return Ok(());
    }

    // ---- Resync ----

    method GetDeviceWireGuardIfaceAddrs(id: int) returns (addrs: seq<Prefix>)
      requires id in addresses
      ensures Listed(View(), id, addrs)
    {
      addrs := addresses[id];
    }

    method AllocateAddressesForPools(pools: seq<AddressPool>, covered: set<int>, faults: set<Fault>)
      returns (r: Result<seq<Prefix>, Error>)
      ensures var rest := Uncovered(pools, covered);
        match r
        case Ok(add) => Allocated(View(), rest, add)
        case Err(e) =>
          && (e == NoAvailableAddress ==> exists p :: p in rest && NoneFree(View(), p))
          && (faults == {} ==> exists p :: p in rest && (NoneFree(View(), p) || PoolRange(p).Err?))
          && (faults == {} && Usable(pools) ==> e == NoAvailableAddress)
    {
      UncoveredMeans(pools, covered);
      var add: seq<Prefix> := [];
      for i := 0 to |pools|
        invariant Allocated(View(), Uncovered(pools[..i], covered), add)
      {
        assert pools[..i + 1][..i] == pools[..i];
        if pools[i].id in covered {
          continue;
        }
        var addr := AllocateAddressFromPool(pools[i], faults);
        if addr.Err? {
          assert pools[i] in Uncovered(pools, covered);
          return Err(addr.error);
        }
        add := add + [addr.value];
      }
      assert pools[..|pools|] == pools;
      return Ok(add);
    }

    /** In one transaction: a failure rolls everything back. */
    method UpdateDeviceAddresses(id: int, keep: seq<Prefix>, add: seq<Prefix>, faults: set<Fault>)
      returns (r: Result<(), Error>)
      requires Valid() && id in addresses
      modifies this`addresses
      ensures Valid() && addresses == if r.Ok? then old(addresses)[id := keep + add] else old(addresses)
      ensures r.Err? ==> r.error == QueryFailed && faults != {}
    {
      var all := keep + add;
      if UpdateAddresses(id) in faults {
        return Err(QueryFailed);
      }
      var before := addresses;
      addresses := addresses[id := []];
      for k := 0 to |all|
        invariant addresses == before[id := all[..k]]
      {
        if InsertAddress(k) in faults {
          addresses := before;
          return Err(QueryFailed);
        }
        addresses := addresses[id := addresses[id] + [all[k]]];
        assert all[..k + 1] == all[..k] + [all[k]];
      }
      assert all[..|all|] == all;
      return Ok(());
    }

    method ResyncSingleDevice(id: int, pools: seq<AddressPool>, faults: set<Fault>) returns (r: Result<bool, Error>)
      requires Valid() && id in addresses
      modifies this`addresses
      ensures Valid() && match r
        case Ok(updated) => ResyncDevice(old(View()), id, pools, View(), if updated then Updated else Unchanged)
        case Err(e) =>
          && View() == old(View()) && (e == NoAvailableAddress ==> OutOfAddresses(View(), id, pools))
          && (faults == {} && Usable(pools) ==> e == NoAvailableAddress)
    {
      if GetAddresses(id) in faults {
        return Err(QueryFailed);
      }
      var current := GetDeviceWireGuardIfaceAddrs(id);
      var keep, covered := CategorizeDeviceAddresses(current, pools);
      var add := AllocateAddressesForPools(pools, covered, faults);
      if add.Err? {
        return Err(add.error);
      }
      if !HasAddressChanges(current, keep, add.value) {
        assert StillUncovered(current, pools) == [];
        assert ResyncListed(old(View()), id, pools, current, View(), Unchanged);
        return Ok(false);
      }
      var done := UpdateDeviceAddresses(id, keep, add.value, faults);
      if done.Err? {
        return Err(done.error);
      }
      assert ResyncListed(old(View()), id, pools, current, View(), Updated);
      return Ok(true);
    }

    /** Resyncs one device, and deletes it when a pool has no address left for it. */
    method ResyncOrDelete(id: int, pools: seq<AddressPool>, faults: set<Fault>) returns (o: Outcome)
      requires Valid() && id in addresses
      modifies this`devices, this`addresses
      ensures Valid() && ResyncDevice(old(View()), id, pools, View(), o)
      ensures faults == {} && Usable(pools) ==> o != Failed
      ensures forall d :: d != id && d in old(addresses) ==> d in addresses
    {
      FailedPass(View(), id, pools);
      var updated := ResyncSingleDevice(id, pools, faults);
      match updated {
        case Ok(yes) => return if yes then Updated else Unchanged;
        case Err(e) =>
          if e != NoAvailableAddress {
            return Failed;
          }
          DeletedPass(View(), id, pools);
          var deleted := DeleteDevice(id, faults);
          return if deleted.Ok? then Deleted else Failed;
      }
    }

    method ResyncDevices(u: int, faults: set<Fault>) returns (r: Result<Response, Error>)
      requires Valid()
      modifies this`devices, this`addresses
      ensures Valid() && ResyncStep(old(View()), u, faults, View(), r)
      ensures faults == {} && u in templates && Usable(templates[u]) ==> r.Ok? && r.value.errors == 0
    {
      if TemplateExists in faults || GetPools in faults || ListDevices in faults {
        return Err(QueryFailed);
      }
      if u !in templates {
        return Err(NotFound);
      }
      var ids := GetDevicesByTemplateID(u);
      var response, outcomes := ResyncEach(ids, templates[u], faults);
      return Ok(response);
    }

    /** The loop over the devices, counting what happens to each. */
    method ResyncEach(ids: seq<int>, pools: seq<AddressPool>, faults: set<Fault>)
      returns (response: Response, ghost outcomes: seq<Outcome>)
      requires Valid() && forall i :: 0 <= i < |ids| ==> ids[i] in addresses
      requires forall i, j :: 0 <= i < j < |ids| ==> ids[i] != ids[j]
      modifies this`devices, this`addresses
      ensures Valid() && ResyncAll(old(View()), ids, pools, View(), outcomes)
      ensures response == Summary(outcomes)
      ensures faults == {} && Usable(pools) ==> response.errors == 0
    {
      response, outcomes := Response(0, 0, 0), [];
      for i := 0 to |ids|
        invariant Valid() && ResyncAll(old(View()), ids[..i], pools, View(), outcomes)
        invariant response == Summary(outcomes)
        invariant faults == {} && Usable(pools) ==> response.errors == 0
        invariant forall k :: i <= k < |ids| ==> ids[k] in addresses
      {
        ghost var m := View();
        var o := ResyncOrDelete(ids[i], pools, faults);
        OneMorePass(old(View()), ids, i, pools, m, outcomes, View(), o);
        OneMoreCounted(outcomes, o);
        response := Tallied(response, o);
        outcomes := outcomes + [o];
      }
      assert ids[..|ids|] == ids;
    }

    method GetDevicesByTemplateID(u: int) returns (ids: seq<int>)
      ensures ListsRows(View(), u, ids)
    {
      ids := [];
      var todo := Rows(View(), u);
      while todo != {}
        invariant todo <= Rows(View(), u)
        invariant forall i :: 0 <= i < |ids| ==> Owns(View(), u, ids[i]) && ids[i] !in todo
        invariant forall id :: id in Rows(View(), u) ==> id in ids || id in todo
        invariant forall i, j :: 0 <= i < j < |ids| ==> ids[i] != ids[j]
      {
        var id := AnyOf(todo);
        ids := ids + [id];
        todo := todo - {id};
      }
    }

    // ---- Clearing sessions ----

    /** Returns how many rows the statement matched. */
    method InvalidateOldDevicesSessions(threshold: int, faults: set<Fault>) returns (r: Result<int, Error>)
      requires Valid()
      modifies this`devices
      ensures Valid() && ClearStep(old(View()), Expired(old(View()), threshold), View(), r.Ok?)
      ensures r.Ok? <==> Invalidate !in faults
      ensures r.Ok? ==> r.value == |Expired(old(View()), threshold)|
    {
      if Invalidate in faults {
        return Err(QueryFailed);
      }
      var ids := Expired(View(), threshold);
      devices := ClearSessions(View(), ids).devices;
      return Ok(|ids|);
    }

    method DeleteDeviceSession(id: int, faults: set<Fault>) returns (r: Result<(), Error>)
      requires Valid()
      modifies this`devices
      ensures Valid() && ClearStep(old(View()), {id}, View(), r.Ok?)
      ensures r.Ok? <==> id in old(devices) && Invalidate !in faults
    {
      if Invalidate in faults || id !in devices {
        return Err(QueryFailed);
      }
      devices := ClearSessions(View(), {id}).devices;
      return Ok(());
    }

    /** A user without a device template has nothing to clear. */
    method DeleteUserDeviceSessions(u: int, faults: set<Fault>) returns (r: Result<(), Error>)
      requires Valid()
      modifies this`devices
      ensures Valid() && ClearStep(old(View()), Rows(old(View()), u), View(), r.Ok?)
      ensures r.Ok? <==> FindTemplate !in faults && (u in templates ==> Invalidate !in faults)
    {
      if FindTemplate in faults {
        return Err(QueryFailed);
      }
      if u !in templates {
        assert forall id :: id in devices ==> id !in Rows(View(), u);
        assert devices == ClearSessions(View(), Rows(View(), u)).devices;
        return Ok(());
      }
      if Invalidate in faults {
        return Err(QueryFailed);
      }
      devices := ClearSessions(View(), Rows(View(), u)).devices;
      return Ok(());
    }

    method DeleteSessionsOfAllUsersWithCertMFA(faults: set<Fault>) returns (r: Result<(), Error>)
      requires Valid()
      modifies this`devices
      ensures Valid() && ClearStep(old(View()), CertRows(old(View())), View(), r.Ok?)
      ensures r.Ok? <==> Invalidate !in faults
    {
      if Invalidate in faults {
        return Err(QueryFailed);
      }
      devices := ClearSessions(View(), CertRows(View())).devices;
      return Ok(());
    }

    // ---- Enforcing the limit ----

    method GetDevicesByUserID(u: int) returns (rows: seq<Row>)
      ensures ListsDevices(View(), u, rows)
    {
      var ids := GetDevicesByTemplateID(u);
      rows := [];
      for i := 0 to |ids|
        invariant |rows| == i && forall k :: 0 <= k < i ==> rows[k].id == ids[k] && rows[k] == RowOf(View(), ids[k])
      {
        rows := rows + [Row(ids[i], devices[ids[i]])];
      }
    }

    /** Deletes the user's excess devices, going on past a deletion that fails. */
    method DeleteExcess(u: int, faults: set<Fault>) returns (ghost deleted: set<int>)
      requires Valid() && ListDevicesOf(u) !in faults
      modifies this`devices, this`addresses
      ensures Valid() && deleted <= Rows(old(View()), u) && View() == Minus(old(View()), deleted)
      ensures DeletedFor(old(View()), u, faults, deleted)
    {
      var rows := GetDevicesByUserID(u);
      deleted := {};
      if |rows| <= limit {
        return;
      }
      var excess := |rows| - limit;
      var sorted := PrioritizeDevicesForDeletion(rows);
      ListingPermuted(View(), u, rows, sorted);
      var i := 0;
      while i < excess && i < |sorted|
        invariant 0 <= i <= |sorted| && i <= excess && Valid()
        invariant deleted == Deletable(sorted, i, faults)
        invariant View() == Minus(old(View()), deleted)
      {
        DeletableStep(sorted, i, faults);
        NotYetDeleted(old(View()), u, sorted, i, faults);
        var r := DeleteDevice(sorted[i].id, faults);
        MinusOneMore(old(View()), deleted, sorted[i].id, faults, View(), r);
        if r.Ok? {
          deleted := deleted + {sorted[i].id};
        }
        i := i + 1;
      }
    }

    method EnforceDPULimit(faults: set<Fault>) returns (r: Result<(), Error>)
      requires Valid()
      modifies this`devices, this`addresses
      ensures Valid() && EnforceStep(old(View()), faults, View(), r)
    {
      if ListUsers in faults {
        return Err(QueryFailed);
      }
      ghost var s := View();
      ghost var ids: set<int> := {};
      var todo := users;
      while todo != {}
        invariant todo <= users && Valid()
        invariant View() == Minus(s, ids) && ids <= s.devices.Keys
        invariant forall u :: u in todo ==> ids !! Rows(s, u)
        invariant forall u :: u in users - todo ==> DeletedFor(s, u, faults, ids * Rows(s, u))
      {
        var u := AnyOf(todo);
        todo := todo - {u};
        if ListDevicesOf(u) in faults {
          continue;
        }
        ghost var deleted := DeleteExcess(u, faults);
        MinusRows(s, ids, u);
        DeletedForOthersFirst(s, ids, u, faults, deleted);
        EnforceOneMore(s, ids, u, faults, deleted);
        ids := ids + deleted;
      }
      return Ok(());
    }
  }

  lemma {:induction false} PrefixFails(texts: seq<string>, i: nat)
    requires i <= |texts| && ParsePrefixes(texts[..i]) == None
    ensures ParsePrefixes(texts) == None
    decreases |texts| - i
  {
    if i == |texts| {
      assert texts[..i] == texts;
    } else {
      assert texts[..i + 1][..i] == texts[..i];
      PrefixFails(texts, i + 1);
    }
  }

  /** Addresses outside the pool's subnet cannot change what the pool offers. */
  lemma SubnetQueryIsEnough(s: Store, ran: AddrRange, used: seq<Addr>)
    requires ran.Valid()
    requires forall a: Addr :: a in used <==>
      InUse(s, a) && ToSubnetAddr(Prefix(a, ran.bits)) == ran.ToContainingSubnet()
    ensures forall a: Addr :: Available(ran, Elements(used), a) <==> Available(ran, Used(s), a)
  {
    forall a: Addr ensures Available(ran, Elements(used), a) <==> Available(ran, Used(s), a) {
      if ran.lower <= a <= ran.upper { RangeWithinSubnet(ran, a); }
    }
  }
}
