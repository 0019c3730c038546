/** The device-slot choice of AssignDeviceSlot, the session-clearing statements,
    and what they keep (service/user/device.go, service/user/session.go). */
module Slots {
  import opened Results
  import opened Tables

  const DUMMY_EXTERNAL_DEVICE_ID := "000000000000000000000"
  const NANO_ID_LENGTH := 21
  const DIGITS := "0123456789"
  const LOWERCASE := "abcdefghijklmnopqrstuvwxyz"
  const UPPERCASE := "ABCDEFGHIJKLMNOPQRSTUVWXYZ"
  const NANO_ID_ALPHABET := "_-" + DIGITS + LOWERCASE + UPPERCASE

  predicate IsNanoID(id: string) {
    |id| == NANO_ID_LENGTH && forall i :: 0 <= i < |id| ==> id[i] in NANO_ID_ALPHABET
  }

  /** Clients that send no external ID share the dummy one. */
  function EffectiveID(ext: string): string {
    if ext == "" then DUMMY_EXTERNAL_DEVICE_ID else ext
  }

  predicate ValidCall(u: int, session: string, ext: string) {
    session != "" && u > 0 && (ext == "" || IsNanoID(ext))
  }

  // ---- Choosing a slot ----

  /** ORDER BY last_time_connected ASC NULLS FIRST. */
  predicate NotAfter(a: Option<int>, b: Option<int>) {
    a.None? || (b.Some? && a.value <= b.value)
  }

  /** Row id is first, or tied for first, among ids in that order. */
  predicate IsOldest(s: Store, ids: set<int>, id: int)
    requires ids <= s.devices.Keys
  {
    id in ids && forall j :: j in ids ==> NotAfter(s.devices[id].lastConnected, s.devices[j].lastConnected)
  }

  predicate Holds(s: Store, u: int, key: string, id: int) {
    Owns(s, u, id) && s.devices[id].externalID == key
  }

  predicate HasKey(s: Store, u: int, key: string) {
    exists id :: id in s.devices && Holds(s, u, key, id)
  }

  /** The user's devices without a session. */
  function Inactive(s: Store, u: int): set<int> {
    set id | id in s.devices && Owns(s, u, id) && s.devices[id].session == ""
  }

  datatype Slot = Reuse(id: int) | Free(id: int) | NewRow | Overwrite(id: int) | Kick(id: int)

  /** Neither the device itself nor a free slot is there. */
  predicate NoneReusable(s: Store, u: int, key: string) {
    !HasKey(s, u, key) && !HasKey(s, u, "") && u in s.templates
  }

  /** The five cases. LIMIT 1 leaves the choice between equal rows open. */
  predicate Chosen(s: Store, u: int, key: string, slot: Slot) {
    match slot
    case Reuse(id) => Holds(s, u, key, id)
    case Free(id) => !HasKey(s, u, key) && Holds(s, u, "", id)
    case NewRow => NoneReusable(s, u, key) && |Rows(s, u)| < s.limit
    case Overwrite(id) => NoneReusable(s, u, key) && |Rows(s, u)| >= s.limit && IsOldest(s, Inactive(s, u), id)
    case Kick(id) =>
      && NoneReusable(s, u, key) && |Rows(s, u)| >= s.limit
      && Inactive(s, u) == {} && IsOldest(s, Rows(s, u), id)
  }

  /** What the update statement of each case writes. */
  function Connected(d: Device, slot: Slot, key: string, session: string, info: string, now: int): Device {
    if slot.Reuse? then d.(session := session, lastConnected := Some(now))
    else d.(externalID := key, session := session, lastConnected := Some(now), information := TextOrNull(info))
  }

  ghost predicate Assigned(s: Store, u: int, key: string, session: string, info: string,
                           now: int, slot: Slot, s': Store)
    requires Chosen(s, u, key, slot)
  {
    if slot.NewRow? then
      exists addrs :: Allocated(s, s.templates[u], addrs) &&
        s' == Inserted(s, NewDevice(u, key, info).(session := session, lastConnected := Some(now)), addrs)
    else s' == s.(devices := s.devices[slot.id := Connected(s.devices[slot.id], slot, key, session, info, now)])
  }

  /** A failure after the insert of case 3: the row is there, without a session or a timestamp. */
  ghost predicate HalfCreated(s: Store, u: int, key: string, info: string, s': Store) {
    Chosen(s, u, key, NewRow) &&
    exists addrs, n :: Allocated(s, s.templates[u], addrs) && 0 <= n <= |addrs| &&
      s' == Inserted(s, NewDevice(u, key, info), addrs[..n])
  }

  /** Without outside failures, the calls that find no slot. */
  ghost predicate NoSlot(s: Store, u: int, key: string) {
    !HasKey(s, u, key) && !HasKey(s, u, "") &&
    (u !in s.templates ||
     (|Rows(s, u)| < s.limit && CannotAllocate(s, s.templates[u])) ||
     s.limit <= |Rows(s, u)| == 0)
  }

  /** AssignDeviceSlot. */
  ghost predicate AssignStep(s: Store, u: int, session: string, ext: string, info: string, now: int,
                             faults: set<Fault>, s': Store, r: Result<string, Error>)
  {
    var key := EffectiveID(ext);
    if !ValidCall(u, session, ext) then s' == s && r == Err(InvalidData)
    else match r
      case Ok(found) =>
        found == key && exists slot :: Chosen(s, u, key, slot) && Assigned(s, u, key, session, info, now, slot, s')
      case Err(_) =>
        && (s' == s || (faults != {} && HalfCreated(s, u, key, info, s')))
        && (faults == {} ==> NoSlot(s, u, key))
  }

  /** Taking a slot that may be chosen is a successful assignment. */
  lemma SlotAssigned(s: Store, u: int, session: string, ext: string, info: string, now: int,
                     faults: set<Fault>, s': Store, slot: Slot)
    requires ValidCall(u, session, ext) && Chosen(s, u, EffectiveID(ext), slot)
    requires Assigned(s, u, EffectiveID(ext), session, info, now, slot, s')
    ensures AssignStep(s, u, session, ext, info, now, faults, s', Ok(EffectiveID(ext)))
  {
  }

  /** A new row with all its addresses is half created until its session is written. */
  lemma WholeDeviceIsHalf(s: Store, u: int, key: string, info: string, s': Store)
    requires Chosen(s, u, key, NewRow)
    requires exists addrs :: Allocated(s, s.templates[u], addrs) && s' == Inserted(s, NewDevice(u, key, info), addrs)
    ensures HalfCreated(s, u, key, info, s')
  {
    var addrs :| Allocated(s, s.templates[u], addrs) && s' == Inserted(s, NewDevice(u, key, info), addrs);
    assert addrs[..|addrs|] == addrs;
  }

  // ---- Clearing sessions ----

  function Cleared(d: Device): Device {
    d.(session := "")
  }

  /** UPDATE devices SET session_id='' WHERE id IN ids. */
  function ClearSessions(s: Store, ids: set<int>): Store {
    s.(devices := map id | id in s.devices :: if id in ids then Cleared(s.devices[id]) else s.devices[id])
  }

  /** WHERE last_time_connected < threshold: a null timestamp never compares. */
  function Expired(s: Store, threshold: int): set<int> {
    set id | id in s.devices && s.devices[id].lastConnected.Some? && s.devices[id].lastConnected.value < threshold
  }

  function CertRows(s: Store): set<int> {
    set id | id in s.devices && s.devices[id].owner in s.certUsers
  }

  /** An UPDATE that clears the sessions of the given rows, or fails and changes nothing. */
  ghost predicate ClearStep(s: Store, ids: set<int>, s': Store, ok: bool) {
    s' == if ok then ClearSessions(s, ids) else s
  }
}
