# EntGuard in Dafny

EntGuard orchestrates WireGuard servers and the devices of their users. This
project models the parts of it that carry algorithms and long-lived state, and
proves what they guarantee over every input and every run:

- **Address arithmetic and allocation** (`Octets`, `Arithmetic`, `Masks`,
  `AddrRanges`, `IpText`): IPv4 masks octet by octet, address ranges, first-fit
  allocation, and the textual forms of ranges.
- **Address pools** (`AddressPools`, `PoolValidation`): overlap, validation, and
  the greedy matching of a device's addresses to pools.
- **The device table** (`Tables`, `Slots`, `Resync`, `Sorting`, `Priority`,
  `Manager`): creating, assigning, resyncing and deleting devices, clearing
  sessions, and enforcing the device limit.
- **What the device table keeps** (`Invariants`, `Uniqueness`, `Lru`): the slot
  invariant, the limit, distinct addresses, and the reading of a user's slots as
  a least-recently-used cache.
- **What the operations do, in plain terms** (`RowLaws`, `EnforcementLaws`,
  `ResyncLaws`, `Calls`): each operation's effect and its exact failures, said of rows,
  addresses and literal values without the predicates its contract is made of.
- **TOTP** (`Totp`): replay protection under any interleaving of attempts.
- **Certificate MFA** (`CertMfa`): which certificates are let in, and which
  sessions survive changes to the stored CAs and CRLs.
- **Notification streams** (`Streams`): the two gRPC handlers and the status store.

`dafny verify dfyconfig.toml` checks everything.

## How the model is built

The manager, the certificate store, the status store and the streams are classes
whose methods update fields, as in the source. A table operation is specified by a
relation between the tables before and after it (`Tables.CreateStep`,
`Slots.AssignStep`, `Resync.ResyncStep`, `Priority.EnforceStep`, ...): the method's
postcondition says the relation holds, the lemmas about runs are about the
relations, and the law modules say what each relation means for rows and addresses.
`Calls.Perform` shows that every call of the manager is a step of the runs. Every call takes the set of places where it fails for a reason outside
the tables (a failed query, encryption, ...), so that partial effects are covered.

Assumptions:

- Addresses are IPv4, as the package comment says (`pkg/ip/ip.go:23`). Pools read
  from the database have masks from 0 to 32.
- A user has one device template, and a device belongs to the user of its template.
  Row IDs are positive and are never reused. A new device row has an empty session
  and a null timestamp.
- `LIMIT 1` without `ORDER BY`, rows with equal keys, and the order in which the
  addresses of a device are listed are nondeterministic.
- Slot, pool and certificate operations run one at a time, because the code does not
  run them in a transaction. TOTP attempts interleave freely.
- What the X.509 library says about a certificate does not depend on the time, and
  stored certificates are read in insertion order.
- Keys, session names, timestamps and one-time codes are parameters.

Two places where the code does less than its comments or names say:

- `service/user/session.go:236-237` keeps all sessions when a CRL is deleted, because
  nothing valid is removed. But the delete statement looks at the ID alone
  (`service/user/querier.go:52`), so `MFADeleteCRL` called with the ID of a CA removes
  that CA and keeps the sessions it justified. `CertMfa.SafeExactly` gives the
  exact condition on the stored rows under which a call keeps every justified session,
  however the data reads; a call that names a CRL always does. It depends on two tests
  being different: a CA is stored if it parses (`service/user/manager.go:1161-1171`),
  and used if it loads as a root (`pkg/mfa/cert.go:81-85`), which data in a PEM block of
  another type does not.
- `service/user/device.go:252-275` takes the addresses it is given without a uniqueness
  check. `Uniqueness.ManualCreateIsDistinct` says exactly when distinctness survives, and
  `Uniqueness.SameAddressTwice` is a call after which it does not.

Two more results are about calls that a reader might expect to be harmless:

- A user's slots are a least-recently-used cache only while calls respect it.
  `Lru.RespectsExactly` says exactly which calls do, and `Lru.ClearedNewerIsEvicted` what
  goes wrong when one device's session is cleared before an older one.
- The compare-and-set on a TOTP counter does not look at the key. A counter that was read
  under one key can succeed twice, but only if the key is reset between a read and its
  write (`Totp.ReplaySpansReset`, `Totp.ReplayAcrossReset`).

## Model

| member | source | states |
|---|---|---|
| `Masks.ToBroadcastAddress` | pkg/ip/ip.go:39-51 | the loop that ORs each octet with the complemented netmask octet yields the address with all host digits set |
| `Masks.OrLoopIsBroadcast` | pkg/ip/ip.go:46-50 | four octets, each ORed with its complemented mask octet, make the broadcast address of the 32-bit number |
| `Octets.SetByOctet` | pkg/ip/ip.go:46-50 | setting the share of host digits that falls into each octet sets the host digits of the whole number |
| `Octets.ClearByOctet` | pkg/ip/ip.go:45 | the same for clearing them |
| `Masks.SubnetIsBlock` | pkg/ip/ip.go:34-51 | with n = 2^(32 - bits), the subnet address is floor(a / n) * n and the broadcast address floor(a / n) * n + n - 1 (section 3.1 of RFC 4632) |
| `Masks.SameSubnet` | pkg/ip/ip.go:34-51 | two addresses have the same subnet exactly when one lies between the other's subnet and broadcast addresses, and exactly when their broadcast addresses agree |
| `Masks.EndsOfSubnet` | pkg/ip/ip.go:34-51 | subnet and broadcast address lie in the subnet and enclose the address |
| `Masks.IsBroadcastAddress` | pkg/ip/ip.go:59-65 | recognises the broadcast address and nothing else |
| `AddrRanges.AddrRangeFromPrefixes` | pkg/ip/ip.go:109-120 | every range it builds is in order, in one subnet, and has the given bounds |
| `AddrRanges.RangeOfItsBounds` | pkg/ip/ip.go:109-120 | a range is built from its own bounds exactly when it is valid |
| `AddrRanges.AddrRangeFromSubnet` | pkg/ip/ip.go:213-229 | fails exactly on what is not a subnet address; the branch marked as normally unreachable is never taken |
| `AddrRanges.SubnetRangeIsSubnet` | pkg/ip/ip.go:213-259 | a subnet's range contains exactly the prefixes of that length whose subnet it is, and its containing subnet is the subnet again |
| `AddrRanges.RangeWithinSubnet` | pkg/ip/ip.go:109-120 | every address of a valid range lies in the range's one subnet |
| `AddrRanges.FirstAvailableAddress` | pkg/ip/ip.go:273-301 | terminates; returns the least address of the range that is unused and neither subnet nor broadcast address, and fails exactly when there is none, also at 255.255.255.255 and with every mask |
| `AddrRanges.NarrowMasksHaveNoAddress` | pkg/ip/ip.go:273-301 | with masks /31 and /32 nothing is ever available |
| `IpText.AddrText` | pkg/ip/ip.go:133 | an address is parsed from exactly the text that prints it |
| `IpText.PrefixText` | pkg/ip/ip.go:137 | the same for a prefix |
| `IpText.SplitJoin` | pkg/ip/ip.go:128 | splitting at a separator gives the one list of parts without the separator that joins to the text |
| `IpText.RangeText` | pkg/ip/ip.go:127-164 | ParseAddrRange returns a range exactly when the range is valid and the text is its String: each undoes the other |
| `IpText.AddrRangeFromDB` | pkg/ip/ip.go:172-200 | the loop that completes the parts computes the specified reading, with all error cases |
| `IpText.StoredRangeText` | pkg/ip/ip.go:172-209 | reading from the database gives a range exactly when it is valid and the text is its ToDB form with "/32" kept or dropped on either bound |
| `IpText.ReadingInvertsToDB` | pkg/ip/ip.go:172-209 | AddrRangeFromDB undoes ToDB |
| `IpText.WrittenRangeVerdict` | pkg/ip/ip.go:109-145 | any two bounds written as a range are refused for their order or for their blocks, in that order, or make the range |
| `IpText.StoredRangeVerdict` | pkg/ip/ip.go:109-200 | the same for bounds from the database, which may also differ in their masks |
| `IpText.SmallNumberText` | pkg/ip/ip.go:162-164 | a number below 1000 is printed as its decimal digits, which are listed |
| `IpText.DottedText` | pkg/ip/ip.go:162-164 | an address is printed as its four octets from the highest on, with dots between them |
| `IpText.DocumentedRange` | pkg/ip/ip.go:122-209 | the range of the documentation is written and read as the documentation says, by users and by the database |
| `AddressPools.VerifyPoolsNotOverlap` | pkg/addresspools/overlap.go:26-35 | succeeds exactly on pairwise disjoint pools, and otherwise names two that overlap |
| `AddressPools.OverlapIsSharedAddress` | pkg/addresspools/overlap.go:39-41 | the endpoint test holds exactly when some address lies in both pools, for pools whose range can be built |
| `PoolValidation.ValidationMatchesUse` | service/user/address_pool.go:155-190 | validation accepts exactly the named pools that can be stored and whose range can be built when an address is allocated |
| `PoolValidation.ValidatesExactly` | service/user/address_pool.go:155-190 | validation accepts exactly a non-empty name, a mask from 0 to 32, and the texts of two addresses that are in order and in one block of 2^(32 - mask) addresses |
| `PoolValidation.ValidatedAreUsable` | service/user/device.go:875-882 | an allocation from a validated pool never fails at range construction |
| `PoolValidation.StoredPrintsBack` | service/user/address_pool.go:67-98 | a validated pool, stored and printed back, is the pool that was entered |
| `PoolValidation.DisjointMeansNoSharedAddress` | pkg/addresspools/overlap.go:26-41 | on validated pools, the overlap check succeeds exactly when no address lies in two of them |
| `AddressPools.CandidatePools` | service/user/device.go:933-938 | collects, in order, exactly the pools that contain the address |
| `AddressPools.SmallestPool` | service/user/device.go:948-977 | finds the first candidate of least size, in 32-bit arithmetic that never wraps |
| `AddressPools.FindPoolForAddress` | service/user/device.go:932-977 | computes PoolFor |
| `AddressPools.PoolForIsBest` | service/user/device.go:932-977 | the result is -1 when no pool contains the address, else the first containing pool of least size |
| `ResyncLaws.MatchedToSmallest` | service/user/device.go:932-1010 | on start, end and mask: an address is matched to no pool exactly when it lies in none, else to the first of those it lies in that have the fewest addresses |
| `AddressPools.FilterUncoveredPools` | service/user/device.go:980-988 | computes Uncovered |
| `AddressPools.UncoveredMeans` | service/user/device.go:980-988 | what is left are exactly the listed pools whose ID is not covered |
| `AddressPools.CategorizeDeviceAddresses` | service/user/device.go:824-848 | computes Categorize |
| `AddressPools.KeptAreMatched` | service/user/device.go:824-848 | the kept addresses are a subsequence of the given ones, matched one-to-one to the covered pools that contain them |
| `AddressPools.DroppedOnlyIfCovered` | service/user/device.go:824-848 | an address is dropped exactly when every pool that contains it is covered by an earlier address |
| `Manager.DeviceManager.QueryUsedAddrsForSubnet` | service/vcm/postgres.go:2056-2077 | returns exactly the in-use addresses inside the subnet, whatever their masks |
| `Manager.SubnetQueryIsEnough` | service/user/device.go:875-896 | what is available in a range does not change when only the used addresses of its subnet are considered |
| `Manager.DeviceManager.AllocateAddressFromPool` | service/user/device.go:875-896 | returns the least address of the pool that nothing uses; without outside failures it fails only when none is left or the range cannot be built |
| `RowLaws.ChosenIsLeastFree` | service/user/device.go:875-896 | what is chosen for a pool is the least address between its ends that no device or server has and that is neither the first nor the last of its block of 2^(32 - mask) addresses |
| `RowLaws.NoneIsFree` | service/user/device.go:875-896 | allocation finds none exactly when there is no such address |
| `Manager.DeviceManager.AllocateDeviceAddresses` | service/user/device.go:696-717 | one first free address for each pool of the template |
| `Manager.DeviceManager.CreateDeviceWithAutogenData` | service/user/device.go:233-248 | all addresses are chosen on the table before the insert; at the limit or without a template nothing changes |
| `Manager.DeviceManager.CreateDeviceInternal` | service/user/device.go:277-350 | the new tables, or the exact partial device that a failure midway leaves |
| `RowLaws.AutoCreatesExactly` | service/user/device.go:233-350 | without outside failures a device is created exactly when the template has room and every pool a free address; the new row is unconnected and has the least free address of each pool |
| `Manager.DeviceManager.CreateDevice` | service/user/device.go:252-275 | parses the caller's addresses and creates a device with them, unchecked; invalid keys, no address, or one that does not parse change nothing |
| `RowLaws.ManualCreatesExactly` | service/user/device.go:252-350 | without outside failures CreateDevice succeeds exactly on valid keys and at least one address, all texts of prefixes, when there is room; it inserts those addresses |
| `RowLaws.ManualCreateErrors` | service/user/device.go:252-305 | which refusal CreateDevice answers: invalid data, an address that does not parse, no template, or the limit |
| `Manager.DeviceManager.ParseAddresses` | service/user/device.go:266-272 | the parsed addresses in order, or nothing as soon as one does not parse |
| `RowLaws.ParsesExactly` | service/user/device.go:265-272 | a list of texts is parsed exactly when each is the text of a prefix |
| `Manager.DeviceManager.DeleteDevice` | service/user/device.go:500-527 | removes one device with its addresses, or changes nothing |
| `RowLaws.DeletesExactly` | service/user/device.go:500-527 | a device is deleted exactly when it is there and no query fails, and nothing else changes |
| `Manager.DeviceManager.GetDeviceByExternalIDAndUserID` | db/query.sql.go:788-792 | finds one of the user's rows with the external ID, if there is any; an empty ID finds none |
| `Manager.DeviceManager.GetDeviceWithNoExternalIDByUserID` | db/query.sql.go:1115-1120 | finds one of the user's free slots, if there is any |
| `Manager.DeviceManager.Oldest` | db/query.sql.go:1142-1176 | finds a first row by connection time, null timestamps first |
| `Manager.DeviceManager.AssignDeviceSlot` | service/user/device.go:536-694 | follows the five cases: reuse, free slot, new slot, overwrite the oldest inactive slot, kick the oldest active one; gives the whole new table in each; without outside failures it fails exactly when there is no slot to give |
| `RowLaws.AnswersGivenID` | service/user/device.go:544-552 | a successful call answers the external ID it was given, or 21 zeros for none, and a row of the user has that ID with the new session and time |
| `RowLaws.DifferentIDsDifferentAnswers` | service/user/device.go:544-552 | two calls with different external IDs never share an answer |
| `RowLaws.ReusesOwnRow` | service/user/device.go:561-583 | case 1: a device that has a row keeps it, and only its session and time change |
| `RowLaws.TakesFreeRow` | service/user/device.go:585-606 | case 2: otherwise a row without an external ID is taken over, with all four of its fields written |
| `RowLaws.InsertsRow` | service/user/device.go:608-643 | case 3: otherwise, under the limit, a row is inserted with the least free address of each pool |
| `RowLaws.OverwritesOldestInactive` | service/user/device.go:645-668 | case 4a: otherwise, of the rows without a session, one that connected first is taken over |
| `RowLaws.KicksOldest` | service/user/device.go:670-692 | case 4b: otherwise, of the active rows, one that connected first is taken over |
| `RowLaws.AssignFailsExactly` | service/user/device.go:536-693 | without outside failures a call fails exactly on bad arguments, or when a slot is needed and there is no template, no free address under the limit, or no slot at all; it then changes nothing |
| `RowLaws.FailedAssignLeavesRows` | service/user/device.go:536-693 | whatever fails, a failed call leaves all rows as they were and adds at most one, without a session or a time |
| `Manager.DeviceManager.UpdateDeviceFromConfiguration` | db/query.sql.go:3170-3174 | writes the external ID, session, timestamp and information of one row |
| `Manager.DeviceManager.UpdateDeviceSessionAndLastTimeConnected` | db/query.sql.go:3211-3216 | writes the session and timestamp of one row |
| `Manager.DeviceManager.SetDeviceTemplate` | service/vcm/postgres.go:809-813 | a template is stored only with pairwise disjoint pools |
| `RowLaws.TemplateTakesExactly` | service/vcm/postgres.go:796-813 | a template takes its pools exactly when no address lies in two of them |
| `Manager.DeviceManager.AllocateAddressesForPools` | service/user/device.go:851-872 | one first free address for each uncovered pool |
| `Manager.DeviceManager.UpdateDeviceAddresses` | service/user/device.go:898-928 | replaces a device's addresses, or rolls back completely |
| `Manager.DeviceManager.ResyncSingleDevice` | service/user/device.go:783-820 | keeps the matched addresses, allocates for the uncovered pools, and reports an update only if something changes |
| `Manager.DeviceManager.ResyncOrDelete` | service/user/device.go:746-775 | deletes a device only if a pool has no address left for it; with usable pools and no outside failure it does not fail |
| `Manager.DeviceManager.ResyncDevices` | service/user/device.go:719-781 | one pass over each of the template's devices, counted in the response; no errors with usable pools and no outside failure |
| `ResyncLaws.DeletedOnlyWhenRunOut` | service/user/device.go:755-768 | with disjoint pools a device is deleted only because some pool in which it has no address has no free address left |
| `ResyncLaws.RunDeletesOnlyWhenRunOut` | service/user/device.go:746-775 | a run deletes a device only if that holds when its turn comes |
| `ResyncLaws.OneAddressPerPool` | service/user/device.go:783-928 | any other pass that does not fail leaves the device one address for each pool and no other: one it had there, or else the least free one |
| `ResyncLaws.PassChanges` | service/user/device.go:783-820 | a pass reported as an update changes the addresses of its device, one reported as unchanged or failed changes nothing, and none touches anything else |
| `ResyncLaws.ResponseIsRight` | service/user/device.go:741-781 | the response counts the user's devices that are gone and those left with other addresses |
| `Resync.ResyncedIsSynced` | service/user/device.go:783-872 | after a pass the device's addresses and the pools correspond one-to-one, each address in its pool |
| `Resync.UncoveredHadNone` | service/user/device.go:824-872 | with disjoint pools, a pool gets a new address exactly when the device had none in it |
| `Resync.SyncedKeepsAll` | service/user/device.go:824-848 | with disjoint pools, addresses in correspondence are all kept, in whatever order they are listed |
| `Resync.SyncedStays` | service/user/device.go:783-820 | a pass over a device in correspondence changes nothing |
| `Resync.RunSyncs` | service/user/device.go:719-781 | after a run without errors every device left is in correspondence with the pools |
| `Resync.RunFrame` | service/user/device.go:719-781 | a run changes no device row except by deleting, and only devices it lists |
| `Resync.ResyncIdempotent` | service/user/device.go:719-781 | a second ResyncDevices after an error-free one updates and deletes nothing |
| `Uniqueness.AllocatedIsFresh` | service/user/device.go:696-716 | although all pools of a call are served before anything is inserted, the addresses are distinct and unused when the pools are disjoint |
| `Uniqueness.SameRangeGetsSameAddress` | pkg/addresspools/overlap.go:26-41 | without disjointness, two pools with one range get the same address in one call |
| `Uniqueness.InsertIsDistinct` | service/user/device.go:324-337 | a new device keeps all addresses distinct exactly when its own are distinct and unused |
| `Uniqueness.AutoCreateIsDistinct` | service/user/device.go:233-248 | CreateDeviceWithAutogenData keeps all device and server addresses distinct, also when it fails midway |
| `Uniqueness.ManualCreateIsDistinct` | service/user/device.go:252-275 | CreateDevice does so exactly when the supplied addresses are distinct and unused |
| `Uniqueness.SameAddressTwice` | service/user/device.go:252-275 | in every state with room, CreateDevice can give one device the same address twice |
| `Uniqueness.PassIsDistinct` | service/user/device.go:783-928 | a resync pass keeps all addresses distinct |
| `Uniqueness.RunIsDistinct` | service/user/device.go:233-928 | over every run of the modelled operations, with any failures, all device and server addresses stay pairwise distinct, if addresses supplied by hand are fresh |
| `Invariants.StepKeeps` | service/user/device.go:561-693 | every modelled operation, whatever fails, keeps: a session implies an external ID and a timestamp, an unassigned slot has neither, no two devices of a user share an external ID, templates have disjoint pools |
| `Invariants.EmptyIsGood` | service/user/device.go:561-693 | the empty tables, from which runs start, satisfy the invariant and have distinct addresses |
| `Invariants.RunKeeps` | service/user/device.go:561-693 | the same over every run |
| `Calls.Perform` | service/user/manager.go:111-131 | whatever call is made of the manager, its tables take one step of that call as the runs have it |
| `Invariants.StepCounts` | service/user/device.go:295-304 | no call takes a user above both the limit and the count before |
| `Invariants.RunCounts` | service/user/device.go:295-304 | a user at or under the limit stays so through every run |
| `Invariants.AssignLeavesOthers` | service/user/device.go:561-693 | an assignment leaves other users' devices and addresses unchanged |
| `Invariants.AssignedIsFound` | service/rpc/vpnc.go:67-77 | after an assignment the lookup by external ID finds one row only, with the new session and timestamp |
| `Invariants.FreeSlotHasNoSession` | service/user/device.go:585-610 | taking a free slot never displaces a live session |
| `Invariants.SweepLeavesRecent` | db/query.sql.go:2847-2851 | after an expiry sweep every live session is at least as recent as the threshold, although null timestamps are never compared |
| `RowLaws.SweepExactly` | db/query.sql.go:2847-2851 | a sweep clears a session exactly when the row's time is before the threshold; rows without a time or at or past it keep theirs |
| `Manager.DeviceManager.InvalidateOldDevicesSessions` | service/user/session.go:98-108 | clears the sessions of exactly the rows older than the threshold and counts them |
| `Manager.DeviceManager.DeleteDeviceSession` | service/user/session.go:246-255 | clears one row's session; fails when there is no such row |
| `RowLaws.DeviceClearExactly` | service/user/session.go:246-255 | clearing one device clears its session and nothing else |
| `Manager.DeviceManager.DeleteUserDeviceSessions` | service/user/session.go:257-273 | clears the sessions of exactly the user's rows |
| `RowLaws.UserClearExactly` | service/user/session.go:257-273 | clearing a user clears the sessions of the user's rows and nothing else |
| `Manager.DeviceManager.DeleteSessionsOfAllUsersWithCertMFA` | service/user/session.go:275-283 | clears the sessions of exactly the rows of users with certificate MFA |
| `RowLaws.CertClearExactly` | service/user/session.go:275-283 | every device of a user with certificate MFA loses its session, and no other device does |
| `Sorting.SortSlice` | service/user/dpu_enforcement.go:121 | a sorted permutation, for every strict weak order |
| `Priority.BeforeIsStrictWeakOrder` | service/user/dpu_enforcement.go:121-171 | the comparator is a strict weak order |
| `EnforcementLaws.NotBeforeExactly` | service/user/dpu_enforcement.go:121-171 | the comparator, field by field: no external ID goes first, then no time, then no session, then the older time, and between two sessions without a time the lower ID |
| `Priority.PrioritizeDevicesForDeletion` | service/user/dpu_enforcement.go:117-173 | a permutation of the devices, none strictly before an earlier one |
| `Manager.DeviceManager.DeleteExcess` | service/user/dpu_enforcement.go:67-107 | deletes the first devices in that order, as many as exceed the limit, going on past failed deletions |
| `Manager.DeviceManager.EnforceDPULimit` | service/user/dpu_enforcement.go:34-115 | does this for every user |
| `Priority.DeletedForUser` | service/user/dpu_enforcement.go:67-107 | exactly the excess is deleted, and no survivor strictly precedes a deleted device |
| `Priority.EnforcementKeepsTheRight` | service/user/dpu_enforcement.go:34-115 | each user ends with the minimum of count and limit, users within the limit lose nothing, and no survivor strictly precedes a deleted device |
| `EnforcementLaws.EnforcesOnRows` | service/user/dpu_enforcement.go:34-115 | on row fields: each user loses exactly the excess, no kept device had to go before a deleted one, and kept rows and addresses stay as they were |
| `EnforcementLaws.GoesOnPastFailures` | service/user/dpu_enforcement.go:82-101 | when deletions fail the others are made all the same: nothing beyond the excess or out of turn is deleted, and it falls short only by devices whose deletion fails |
| `Invariants.PoliciesAgree` | service/user/device.go:585-687 | the row an assignment overwrites in cases 2, 4a and 4b is minimal in the order of enforcement, in every state that satisfies the invariant |
| `Invariants.PoliciesDisagreeWithoutInvariant` | service/user/dpu_enforcement.go:121-171 | without the invariant the two policies can differ |
| `Lru.CacheIsMostRecent` | service/user/device.go:561-693 | the abstract cache lists exactly the most recently connected distinct IDs that fit, most recent first |
| `Lru.MostRecentIsUnique` | service/user/device.go:561-693 | that set of IDs is unique |
| `Lru.ConnectMirrors` | service/user/device.go:561-693 | each successful assignment does to the slots what a connect does to the cache, and keeps every inactive slot older than every active one |
| `Lru.RespectfulStep` | db/query.sql.go:2847-2851 | expiry sweeps, whole-user clearing, single clears that go by age, enforcement, resyncs that delete none of the user's devices, and other users' calls leave the correspondence as it is |
| `Lru.RespectsExactly` | service/user/device.go:561-693 | apart from the user's own connects, a call keeps the correspondence if and only if it is one of these: deleting or creating one of the user's devices, a connect that fails after its insert, and a clear out of turn always break it |
| `Lru.ClearMirrorsExactly` | service/user/session.go:98-108 | clearing any set of sessions keeps it if and only if every session cleared is older than every session left |
| `Lru.ClearOneExactly` | service/user/session.go:246-255 | clearing one device's session keeps it if and only if the device has none, or connected before every other device of the user that has one |
| `Lru.ClearedNewerIsEvicted` | service/user/session.go:246-255 | otherwise, with every slot active and the limit reached, the next new ID always replaces the cleared device, and what is held is no longer the most recent |
| `Lru.SlotsAreLruCache` | service/user/device.go:561-693 | from an empty start, over every such run the user's slots hold exactly the content of a least-recently-used cache whose capacity is the limit |
| `Lru.ClearingOneDeviceEvictsNewest` | service/user/session.go:246-255 | a concrete call of that kind, where the newer of two IDs is replaced |
| `Totp.RunKeeps` | service/user/manager.go:927-974 | over every interleaving, between two key resets the counters written are strictly increasing, the stored counter is the last of them, exactly the successful attempts have an answered write, one each, and no write precedes its read's epoch |
| `Totp.SearchExactly` | pkg/mfa/totp.go:85-98 | the search finds exactly the least counter of the 30-second period of now and its two neighbours for which the passcode is valid, as an unsigned 64-bit number, under the key |
| `Totp.WritesAreForValidCodes` | service/user/manager.go:927-974 | over every run, each counter written was valid for the code its attempt began with, under the key that attempt read, at the time it checked |
| `Totp.NoReplay` | db/query.sql.go:2952-2957 | no counter succeeds twice between two resets (section 5.2 of RFC 6238), and no attempt writes twice |
| `Totp.ReplaySpansReset` | db/query.sql.go:2952-2957 | one counter read under one key is written twice only if a reset came between the read and the write of one of the attempts |
| `Totp.ReplayAcrossReset` | service/user/manager.go:927-974 | that happens: from every state in which a code would be accepted, two attempts and a reset can interleave so that both succeed with one counter under the old key |
| `Totp.EarlyCheckLosesNothing` | pkg/mfa/totp.go:86-98 | without a reset since the read, a code whose least valid counter is not above the one read is rejected, and that counter is not above the stored one either, so the compare-and-set would reject it too |
| `Totp.AloneIsExact` | service/user/manager.go:927-974 | an attempt that runs alone succeeds exactly when there is such a counter and it is above the stored one; it then stores that counter, and otherwise changes no row |
| `Totp.NoSecretNoSuccess` | service/user/manager.go:928-934 | a user without a secret never succeeds |
| `Totp.ResetStartsOver` | db/query.sql.go:3656-3661 | after a reset any positive counter can succeed again |
| `CertMfa.FindCAForCert` | pkg/mfa/cert.go:70-95 | computes CAFor |
| `CertMfa.FindsFirstCA` | pkg/mfa/cert.go:70-95 | the CA found is the first that verifies the certificate with all CAs up to it loading as roots; it fails exactly when there is none |
| `CertMfa.FindCRLsForCA` | pkg/mfa/cert.go:97-124 | computes CRLsOf, with the failure on a CA or a CRL that does not parse |
| `CertMfa.FindsOwnCRLs` | pkg/mfa/cert.go:97-154 | the CRL check passes exactly when the CA and all CRLs parse and none that the CA signed lists the certificate |
| `CertMfa.CheckCertAgainstCRL` | pkg/mfa/cert.go:126-154 | fails exactly when one of the CRLs lists the certificate |
| `CertMfa.Authenticate` | pkg/mfa/cert.go:37-68 | succeeds exactly on accepted certificates |
| `CertMfa.AcceptedExactly` | pkg/mfa/cert.go:37-154 | acceptance in terms of the first CA in line and of the CRLs that CA signed |
| `CertMfa.AcceptsOnRows` | pkg/mfa/cert.go:37-154 | authentication over the stored rows, said of the rows: the first CA row that verifies the certificate, all CAs up to it loading, that CA and all CRL rows parsing, and no CRL it signed listing the certificate |
| `CertMfa.AppendCAKeeps` | service/user/session.go:224-225 | appending a CA never shuts out an accepted certificate |
| `CertMfa.RemoveCRLKeeps` | service/user/session.go:236-237 | removing a CRL never shuts out an accepted certificate |
| `CertMfa.RemoveRedundantCAKeeps` | service/user/session.go:231-235 | removing a CA of which a copy stands in line to be reached instead shuts out nothing |
| `CertMfa.RemoveOtherCALoses` | service/user/session.go:231-235 | removing any other CA shuts out some certificate under some reading of the data in which everything stored parses |
| `CertMfa.CertManager.OpenSession` | service/user/manager.go:975-999 | a session is opened exactly for a certificate the stored rows let in, and nothing else changes |
| `CertMfa.CertManager.DeleteInvalidSessionsByMFACert` | service/user/session.go:223-243 | sessions are cleared exactly when a CRL is inserted or a CA deleted |
| `CertMfa.CertManager.DeleteMFACert` | service/user/querier.go:846-864 | takes the row with the ID out of the table, of whatever kind, leaving the others in their order, and reports when there is none |
| `CertMfa.OtherRowsStay` | service/user/querier.go:846-864 | a deletion leaves exactly the rows with other IDs |
| `CertMfa.CertManager.MFACreateCA` | service/user/manager.go:1148-1171 | appends a CA that parses, whether or not it loads as a root, and keeps every session |
| `CertMfa.CertManager.MFADeleteCA` | service/user/manager.go:1173-1181 | takes the row with the ID out of the table and clears the sessions, or, if there is none, changes nothing |
| `CertMfa.WithoutItsCARefused` | service/user/manager.go:1173-1181 | once the only CA that verifies a certificate is deleted, the certificate is refused |
| `CertMfa.CertManager.MFACreateCRL` | service/user/manager.go:1214-1230 | appends a readable CRL and clears the sessions |
| `CertMfa.CertManager.MFADeleteCRL` | service/user/manager.go:1232-1240 | takes the row with the ID out of the table and keeps every session |
| `CertMfa.SafeChangeKeeps` | service/user/session.go:223-243 | a change keeps every live session justified if what MFADeleteCRL deletes is a CRL or a redundant CA |
| `CertMfa.UnsafeChangeLoses` | service/user/session.go:236-237 | where that condition fails, for some reading of the data the store that the operations build by storing the rows and logging in has a justified session that the change leaves unjustified |
| `CertMfa.SafeExactly` | service/user/session.go:223-243 | so the condition is exact: a change keeps the justified session of every such store if and only if what MFADeleteCRL deletes is a CRL or a redundant CA |
| `CertMfa.RunKeepsJustified` | service/user/session.go:223-243 | after any sequence of logins and such changes every live session is one its certificate would still be let in for |
| `Streams.VpnSServer.SubscribeWG` | service/rpc/vpns.go:104-188 | the stream's events are a run of the automaton, the store holds the automaton's status while the handler loops and Disconnected after every exit, and a failed lookup touches nothing |
| `Streams.VpnSServer.ReceiveFromServer` | service/rpc/vpns.go:268-311 | one receive; the status becomes that of a response, stays at the end of the stream, and anything else ends the stream with an error |
| `Streams.HealthcheckServer.SubscribeForSessionsUpdates` | service/rpc/healthcheck.go:79-141 | the same automaton, on one fixed status entry |
| `Streams.HealthcheckServer.ReceiveFromHealthcheck` | service/rpc/healthcheck.go:143-186 | one receive of the same automaton |
| `Streams.RunsAreLockstep` | service/rpc/vpns.go:131-187 | in every run receives and sends alternate, only the last can fail, and the status is that of the latest response |
| `Streams.LockstepCanHappen` | service/rpc/vpns.go:131-187 | every such exchange happens in some run, which leads to the stated state |
| `Streams.ExchangesAreLockstep` | service/rpc/healthcheck.go:91-140 | the exchanges that can happen are exactly the alternating ones |
| `Streams.RunsEventByEvent` | service/rpc/vpns.go:124-187 | the runs, said of neighbouring events: which event may follow which, and what the last event says about the state |
| `Streams.EndsExactly` | service/rpc/vpns.go:124-187 | a handler has ended exactly when its last event is a failed call, a wrong message, a closed channel or a departed peer |
| `Streams.EachSendIsAnswered` | service/rpc/vpns.go:162-187 | nothing is sent before a subscribe message, and each successful send is followed by exactly one receive before the next |
| `Streams.StoredStatusIsLatest` | service/rpc/vpns.go:289-302 | while a handler waits, the store holds the status of the latest response, or healthy if there was none |
| `Streams.VpnStatusStored` | service/rpc/vpns.go:289-302 | while the handler waits, the store holds health if the latest response has code 0, and otherwise the failure it names; other entries are untouched |
| `Streams.HealthcheckStatusStored` | service/rpc/healthcheck.go:165-178 | the same for the healthcheck service, with code 1 and entry 0 |
| `Streams.SubscribedIsHealthy` | service/rpc/vpns.go:148-151 | before the first response a subscribed peer is stored as healthy |
| `Streams.ReturnedIsDisconnected` | service/rpc/vpns.go:119-123 | a handler that has returned leaves its peer disconnected and other entries alone |
| `Streams.EndsCleanly` | service/rpc/vpns.go:124-187 | a run ends without error exactly when a select finds no notification or the stream ends before the peer subscribes |

## Left out

- REST and gRPC plumbing, JWT, rate limiting, configuration and the user interface: wrappers over libraries.
- Cryptography, key and session generation, PEM, X.509 and one-time codes: abstract predicates and parameters.
- Database connections, contexts, logging, error texts, and adjacencies: a query fails or it does not.
- IPv6: an IPv6 text is rejected by the model's parsers, and validation has the IPv4 mask limit.
- `IpText` parses with whole-text functions; the parsers of net/netip are a library and their loops are not modelled.
- `Uniqueness.RunIsDistinct`: its runs have no UpdateAddressPool, which changes a pool without checking the templates that use it, and no UpdateDevice, which replaces a device's addresses by unchecked ones as CreateDevice does.
- `Manager.DeviceManager.CreateDevice`: whether the keys are well-formed is a parameter.
- GenerateDeviceData: it allocates as CreateDeviceWithAutogenData does, without inserting.
- Server operations: servers' addresses are part of the state but do not change in runs, and the clearing of sessions by server is the clearing of several single devices.
- LDAP users and templates.
- `Lru.SlotsAreLruCache`: its runs have only the calls that `Lru.RespectsExactly` shows to keep the correspondence; when it comes back after another call is not modelled.
- Concurrent slot, pool and certificate operations: the code claims no atomicity for them.
- The cases in which clearing the sessions fails after a certificate was stored or deleted.
- `CertMfa.SafeExactly`: it is about tables with any row IDs, although the manager gives serial ones.
- A second TOTP secret for a user who has one: the schema allows it, the model ignores it.
- TimeToCounter: modelled as integer division by 30; the rounding of the float division is not.
- Which of several outside failures an error names: a failed call says that a query failed.
