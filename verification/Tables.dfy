/** The database rows the device operations work on, and what each operation
    does to them, as relations between the tables before and after. */
module Tables {
  import opened Results
  import opened Octets
  import opened Masks
  import opened AddrRanges
  import opened AddressPools
  import IpText

  /** A row of the devices table. A null timestamp is None; owner is the user of
      the device's template. */
  datatype Device = Device(
    owner: int,
    externalID: string,
    session: string,
    lastConnected: Option<int>,
    information: Option<string>)

  /** The tables: each user's device template with its address pools, the users
      with certificate MFA, the servers' interface addresses, the devices and
      their interface addresses, and the devices' serial sequence. */
  datatype Store = Store(
    limit: int,
    users: set<int>,
    certUsers: set<int>,
    templates: map<int, seq<AddressPool>>,
    servers: seq<Prefix>,
    devices: map<int, Device>,
    addresses: map<int, seq<Prefix>>,
    nextID: int)
  {
    /** What the schema's keys and foreign keys guarantee. */
    ghost predicate Valid() {
      && addresses.Keys == devices.Keys
      && (forall id :: id in devices ==> id < nextID && devices[id].owner in templates)
      && templates.Keys <= users
      && (forall u :: u in templates ==> ValidIDs(templates[u]))
    }
  }

  datatype Error =
    | InvalidData
    | InvalidAddress
    | QueryFailed
    | NotFound
    | LimitExceeded
    | NoAvailableAddress
    | BadPool(RangeError)

  /** The places where an operation can fail for a reason outside the tables. */
  datatype Fault =
    | GenerateKeys
    | GetPools
    | QueryUsedAddrs(pool: int)
    | GetTemplate
    | CountDevices
    | EncryptKey
    | InsertDevice
    | InsertAddress(k: nat)
    | CreateAdjacencies
    | DecryptKey
    | FindByExternalID
    | FindFree
    | FindTemplate
    | ListDevices
    | FindInactive
    | FindOldest
    | UpdateFromConfiguration
    | UpdateSession
    | GetAdjacencies(id: int)
    | DeleteRow(id: int)
    | TemplateExists
    | GetAddresses(id: int)
    | UpdateAddresses(id: int)
    | ListUsers
    | ListDevicesOf(user: int)
    | Invalidate

  predicate Owns(s: Store, u: int, id: int) {
    id in s.devices && s.devices[id].owner == u
  }

  function Rows(s: Store, u: int): set<int> {
    set id | id in s.devices && s.devices[id].owner == u
  }

  // ---- Addresses in use ----

  /** Some device or server interface has address a, under whatever mask. */
  ghost predicate InUse(s: Store, a: Addr) {
    || (exists id, i :: id in s.addresses && 0 <= i < |s.addresses[id]| && s.addresses[id][i].addr == a)
    || (exists i :: 0 <= i < |s.servers| && s.servers[i].addr == a)
  }

  ghost function Used(s: Store): iset<Addr> {
    iset a: Addr | InUse(s, a)
  }

  ghost predicate DistinctAddrs(addrs: seq<Prefix>) {
    forall i, j :: 0 <= i < j < |addrs| ==> addrs[i].addr != addrs[j].addr
  }

  ghost predicate Apart(xs: seq<Prefix>, ys: seq<Prefix>) {
    forall i, j :: 0 <= i < |xs| && 0 <= j < |ys| ==> xs[i].addr != ys[j].addr
  }

  /** All device and server addresses are pairwise distinct. */
  ghost predicate AllDistinct(s: Store) {
    && DistinctAddrs(s.servers)
    && (forall id :: id in s.addresses ==> DistinctAddrs(s.addresses[id]) && Apart(s.addresses[id], s.servers))
    && (forall id, id' :: id in s.addresses && id' in s.addresses && id != id' ==>
          Apart(s.addresses[id], s.addresses[id']))
  }

  /** p is the least address of the pool that nothing in the tables uses. */
  ghost predicate FirstFree(s: Store, pool: AddressPool, p: Prefix) {
    PoolRange(pool).Ok? && p.bits == pool.mask && IsFirstAvailable(PoolRange(pool).value, Used(s), p.addr)
  }

  ghost predicate NoneFree(s: Store, pool: AddressPool) {
    PoolRange(pool).Ok? && forall a: Addr :: !Available(PoolRange(pool).value, Used(s), a)
  }

  ghost predicate Allocated(s: Store, pools: seq<AddressPool>, addrs: seq<Prefix>) {
    |addrs| == |pools| && forall i :: 0 <= i < |pools| ==> FirstFree(s, pools[i], addrs[i])
  }

  // ---- Creating and deleting devices ----

  function TextOrNull(text: string): Option<string> {
    if text == "" then None else Some(text)
  }

  /** The tables with one more device, never connected. */
  function Inserted(s: Store, d: Device, addrs: seq<Prefix>): Store {
    s.(devices := s.devices[s.nextID := d], addresses := s.addresses[s.nextID := addrs], nextID := s.nextID + 1)
  }

  function NewDevice(u: int, ext: string, info: string): Device {
    Device(u, ext, "", None, TextOrNull(info))
  }

  predicate HasRoom(s: Store, u: int) {
    u in s.templates && |Rows(s, u)| < s.limit
  }

  /** createDeviceInternal: inserts the device and its addresses one statement at
      a time, so a failure after the first insert leaves a partial device. */
  ghost predicate CreateStep(s: Store, u: int, ext: string, info: string, addrs: seq<Prefix>,
                             faults: set<Fault>, s': Store, r: Result<int, Error>)
  {
    match r
    case Ok(id) => HasRoom(s, u) && id == s.nextID && s' == Inserted(s, NewDevice(u, ext, info), addrs)
    case Err(e) =>
      && (faults == {} ==> s' == s && !HasRoom(s, u) && e == if u in s.templates then LimitExceeded else NotFound)
      && (s' == s || (HasRoom(s, u) &&
            exists n :: 0 <= n <= |addrs| && s' == Inserted(s, NewDevice(u, ext, info), addrs[..n])))
  }

  /** CreateDeviceWithAutogenData: every pool's address is chosen before anything is inserted. */
  ghost predicate AutoCreateStep(s: Store, u: int, ext: string, info: string,
                                 faults: set<Fault>, s': Store, r: Result<int, Error>)
  {
    var pools := if u in s.templates then s.templates[u] else [];
    || (exists addrs :: Allocated(s, pools, addrs) && CreateStep(s, u, ext, info, addrs, faults, s', r))
    || (r.Err? && s' == s && (faults == {} ==> CannotAllocate(s, pools)))
  }

  ghost predicate CannotAllocate(s: Store, pools: seq<AddressPool>) {
    exists i :: 0 <= i < |pools| && (PoolRange(pools[i]).Err? || NoneFree(s, pools[i]))
  }

  function Without(s: Store, id: int): Store {
    s.(devices := s.devices - {id}, addresses := s.addresses - {id})
  }

  ghost predicate DeleteStep(s: Store, id: int, faults: set<Fault>, s': Store, r: Result<(), Error>) {
    && (r.Ok? <==> id in s.devices && !CannotDelete(id, faults))
    && s' == if r.Ok? then Without(s, id) else s
  }

  predicate CannotDelete(id: int, faults: set<Fault>) {
    GetAdjacencies(id) in faults || DeleteRow(id) in faults
  }

  /** The prefixes that the texts stand for; None when one of them is not a prefix. */
  function ParsePrefixes(texts: seq<string>): Option<seq<Prefix>> {
    if texts == [] then Some([])
    else
      var n := |texts| - 1;
      match (ParsePrefixes(texts[..n]), IpText.ParsePrefix(texts[n]))
      case (Some(before), Some(p)) => Some(before + [p])
      case _ => None
  }

  lemma ParsesOneMore(texts: seq<string>, before: seq<Prefix>, text: string, p: Prefix)
    requires ParsePrefixes(texts) == Some(before) && IpText.ParsePrefix(text) == Some(p)
    ensures ParsePrefixes(texts + [text]) == Some(before + [p])
  {
    assert (texts + [text])[..|texts|] == texts;
  }

  /** CreateDevice: the caller's addresses are parsed, and taken as they are. */
  ghost predicate ManualCreateStep(s: Store, u: int, keysValid: bool, texts: seq<string>,
                                   faults: set<Fault>, s': Store, r: Result<int, Error>)
  {
    if !keysValid || texts == [] then s' == s && r == Err(InvalidData)
    else match ParsePrefixes(texts)
      case None => s' == s && r == Err(InvalidAddress)
      case Some(addrs) => CreateStep(s, u, "", "", addrs, faults, s', r)
  }

  /** The pools come from the pool table: ranges in order, one pool per ID. */
  ghost predicate FromPoolTable(pools: seq<AddressPool>) {
    && (forall i :: 0 <= i < |pools| ==> pools[i].id > 0 && pools[i].start <= pools[i].end)
    && (forall i, j :: 0 <= i < |pools| && 0 <= j < |pools| && pools[i].id == pools[j].id ==> pools[i] == pools[j])
  }

  /** Listing one pool twice counts as an overlap. */
  lemma DisjointMeansDistinct(pools: seq<AddressPool>)
    requires FromPoolTable(pools) && Disjoint(pools)
    ensures ValidIDs(pools)
  {
    forall i, j | 0 <= i < j < |pools| ensures pools[i].id != pools[j].id {
      assert PoolsOverlap(pools[i], pools[i]);
    }
  }

  /** Creating or updating a device template with these pools. */
  ghost predicate TemplateStep(s: Store, u: int, pools: seq<AddressPool>,
                               faults: set<Fault>, s': Store, r: Result<(), Error>) {
    if r.Ok? then u in s.users && Disjoint(pools) && s' == s.(templates := s.templates[u := pools])
    else s' == s && (faults != {} || u !in s.users || !Disjoint(pools))
  }
}
