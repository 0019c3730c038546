/** No two interfaces ever get the same address: allocation, creation and resync
    keep all device and server addresses pairwise distinct. */
module Uniqueness {
  import opened Results
  import opened Masks
  import opened AddressPools
  import opened Tables
  import opened Slots
  import opened Resync
  import opened Invariants
  import IpText
  import Sorting

  /** Addresses that can be added: distinct, and used by nothing yet. */
  ghost predicate Fresh(s: Store, addrs: seq<Prefix>) {
    DistinctAddrs(addrs) && forall i :: 0 <= i < |addrs| ==> !InUse(s, addrs[i].addr)
  }

  lemma FreshIsApart(s: Store, addrs: seq<Prefix>)
    requires Fresh(s, addrs)
    ensures Apart(addrs, s.servers) && forall id :: id in s.addresses ==> Apart(addrs, s.addresses[id])
  {
  }

  /** What one call allocates is fresh: every address is chosen before any is
      inserted, and disjoint pools keep the choices apart. */
  lemma AllocatedIsFresh(s: Store, pools: seq<AddressPool>, addrs: seq<Prefix>)
    requires Allocated(s, pools, addrs) && Disjoint(pools)
    ensures Fresh(s, addrs)
  {
    AllocatedBelong(s, pools, addrs);
    forall i, j | 0 <= i < j < |addrs| ensures addrs[i].addr != addrs[j].addr {
      assert Belongs(addrs[i], pools[i]) && Belongs(addrs[j], pools[j]);
      assert !PoolsOverlap(pools[i], pools[j]);
    }
  }

  /** Without the overlap check it would fail: two pools over the same range are
      given the same address in one call. */
  lemma SameRangeGetsSameAddress(s: Store, p: AddressPool, q: AddressPool, addrs: seq<Prefix>)
    requires Allocated(s, [p, q], addrs) && p.start == q.start && p.end == q.end && p.mask == q.mask
    ensures addrs[0] == addrs[1]
  {
    assert FirstFree(s, [p, q][0], addrs[0]) && FirstFree(s, [p, q][1], addrs[1]);
  }

  /** A new device keeps all addresses distinct exactly when its addresses are fresh. */
  lemma InsertIsDistinct(s: Store, d: Device, addrs: seq<Prefix>)
    requires s.Valid() && AllDistinct(s)
    ensures AllDistinct(Inserted(s, d, addrs)) <==> Fresh(s, addrs)
  {
    var s' := Inserted(s, d, addrs);
    if Fresh(s, addrs) {
      FreshIsApart(s, addrs);
    }
    if AllDistinct(s') {
      assert s'.addresses[s.nextID] == addrs;
      forall i | 0 <= i < |addrs| ensures !InUse(s, addrs[i].addr) {
        assert Apart(addrs, s.servers);
        assert forall id :: id in s.addresses ==> s'.addresses[id] == s.addresses[id] && Apart(addrs, s.addresses[id]);
      }
    }
  }

  lemma FreshPrefix(s: Store, addrs: seq<Prefix>, n: nat)
    requires Fresh(s, addrs) && n <= |addrs|
    ensures Fresh(s, addrs[..n])
  {
  }

  lemma AutoCreateIsDistinct(s: Store, u: int, ext: string, info: string, faults: set<Fault>,
                               s': Store, r: Result<int, Error>)
    requires Inv(s) && AllDistinct(s) && AutoCreateStep(s, u, ext, info, faults, s', r)
    ensures AllDistinct(s')
  {
    if s' != s {
      var pools := if u in s.templates then s.templates[u] else [];
      var addrs :| Allocated(s, pools, addrs) && CreateStep(s, u, ext, info, addrs, faults, s', r);
      AllocatedIsFresh(s, pools, addrs);
      CreateIsDistinct(s, u, ext, info, addrs, faults, s', r);
    }
  }

  lemma CreateIsDistinct(s: Store, u: int, ext: string, info: string, addrs: seq<Prefix>,
                         faults: set<Fault>, s': Store, r: Result<int, Error>)
    requires Inv(s) && AllDistinct(s) && Fresh(s, addrs) && CreateStep(s, u, ext, info, addrs, faults, s', r)
    ensures AllDistinct(s')
  {
    if s' != s {
      assert addrs[..|addrs|] == addrs;
      var n :| 0 <= n <= |addrs| && s' == Inserted(s, NewDevice(u, ext, info), addrs[..n]);
      FreshPrefix(s, addrs, n);
      InsertIsDistinct(s, NewDevice(u, ext, info), addrs[..n]);
    }
  }

  /** CreateDevice takes the caller's addresses unchecked: a device it creates
      keeps all addresses distinct exactly when those were fresh. */
  lemma ManualCreateIsDistinct(s: Store, u: int, texts: seq<string>, faults: set<Fault>, s': Store, id: int)
    requires Inv(s) && AllDistinct(s) && ManualCreateStep(s, u, true, texts, faults, s', Ok(id))
    ensures AllDistinct(s') <==> Fresh(s, ParsePrefixes(texts).value)
  {
    InsertIsDistinct(s, NewDevice(u, "", ""), ParsePrefixes(texts).value);
  }

  lemma ParsesTwice(text: string, p: Prefix)
    requires text == IpText.PrintPrefix(p)
    ensures ParsePrefixes([text, text]) == Some([p, p])
  {
    IpText.PrefixText(text, p);
    ParsesOneMore([], [], text, p);
    ParsesOneMore([] + [text], [] + [p], text, p);
    assert [] + [text] + [text] == [text, text] && [] + [p] + [p] == [p, p];
  }

  /** For one, it creates a device with the same address twice. */
  lemma SameAddressTwice(s: Store, u: int, p: Prefix, s': Store)
    requires Inv(s) && AllDistinct(s) && HasRoom(s, u)
    requires s' == Inserted(s, NewDevice(u, "", ""), [p, p])
    ensures ManualCreateStep(s, u, true, [IpText.PrintPrefix(p), IpText.PrintPrefix(p)], {}, s', Ok(s.nextID))
    ensures !AllDistinct(s')
  {
    ParsesTwice(IpText.PrintPrefix(p), p);
    var addrs := s'.addresses[s.nextID];
    assert addrs[0].addr == addrs[1].addr;
  }

  lemma AssignIsDistinct(s: Store, u: int, session: string, ext: string, info: string, now: int,
                         faults: set<Fault>, s': Store, r: Result<string, Error>)
    requires Inv(s) && AllDistinct(s) && AssignStep(s, u, session, ext, info, now, faults, s', r)
    ensures AllDistinct(s')
  {
    var key := EffectiveID(ext);
    if s' == s {
    } else if r.Ok? {
      var slot :| Chosen(s, u, key, slot) && Assigned(s, u, key, session, info, now, slot, s');
      if slot.NewRow? {
        var d := NewDevice(u, key, info).(session := session, lastConnected := Some(now));
        var addrs :| Allocated(s, s.templates[u], addrs) && s' == Inserted(s, d, addrs);
        AllocatedIsFresh(s, s.templates[u], addrs);
        InsertIsDistinct(s, d, addrs);
      }
    } else {
      var addrs, n :| Allocated(s, s.templates[u], addrs) && 0 <= n <= |addrs| &&
        s' == Inserted(s, NewDevice(u, key, info), addrs[..n]);
      AllocatedIsFresh(s, s.templates[u], addrs);
      FreshPrefix(s, addrs, n);
      InsertIsDistinct(s, NewDevice(u, key, info), addrs[..n]);
    }
  }

  // ---- Resync ----

  /** Keeping some of a device's addresses and adding fresh ones. */
  lemma ReplaceIsDistinct(s: Store, id: int, keep: seq<Prefix>, add: seq<Prefix>)
    requires AllDistinct(s) && id in s.addresses && Fresh(s, add)
    requires multiset(keep) <= multiset(s.addresses[id])
    ensures AllDistinct(s.(addresses := s.addresses[id := keep + add]))
  {
    FreshIsApart(s, add);
    KeptAreDistinct(s.addresses[id], keep);
    forall i | 0 <= i < |keep| ensures keep[i] in s.addresses[id] {
      assert keep[i] in multiset(keep);
    }
    forall other | other in s.addresses && other != id
      ensures Apart(keep + add, s.addresses[other]) && Apart(s.addresses[other], keep + add)
    {
      assert Apart(s.addresses[id], s.addresses[other]);
    }
  }

  lemma KeptAreDistinct(addrs: seq<Prefix>, keep: seq<Prefix>)
    requires DistinctAddrs(addrs) && multiset(keep) <= multiset(addrs)
    ensures DistinctAddrs(keep)
  {
    forall i, j | 0 <= i < j < |keep| ensures keep[i].addr != keep[j].addr {
      assert keep[i] in multiset(keep) && keep[j] in multiset(keep);
      var a :| 0 <= a < |addrs| && addrs[a] == keep[i];
      var b :| 0 <= b < |addrs| && addrs[b] == keep[j];
      if a == b {
        assert keep == keep[..i] + [keep[i]] + keep[i + 1..j] + [keep[j]] + keep[j + 1..];
        assert multiset(keep)[keep[i]] >= 2;
        Sorting.AtMostOnce(addrs, keep[i]);
      }
    }
  }

  lemma PassIsDistinct(s: Store, id: int, pools: seq<AddressPool>, s': Store, o: Outcome)
    requires AllDistinct(s) && Disjoint(pools) && ResyncDevice(s, id, pools, s', o)
    ensures AllDistinct(s')
  {
    var current :| Listed(s, id, current) && ResyncListed(s, id, pools, current, s', o);
    if o == Updated {
      var add :| Allocated(s, StillUncovered(current, pools), add)
        && s' == s.(addresses := s.addresses[id := Categorize(current, pools).keep + add]);
      UncoveredKeeps(pools, Categorize(current, pools).Covered());
      AllocatedIsFresh(s, StillUncovered(current, pools), add);
      KeptIsSubsequence(current, pools);
      SubsequenceLength(Categorize(current, pools).keep, current);
      ReplaceIsDistinct(s, id, Categorize(current, pools).keep, add);
    }
  }

  lemma {:induction false} ResyncAllIsDistinct(s: Store, ids: seq<int>, pools: seq<AddressPool>,
                                                s': Store, outcomes: seq<Outcome>)
    requires AllDistinct(s) && Disjoint(pools) && ResyncAll(s, ids, pools, s', outcomes)
    ensures AllDistinct(s')
  {
    if ids != [] {
      var n := |ids| - 1;
      var m :| ResyncAll(s, ids[..n], pools, m, outcomes[..n]) && ResyncDevice(m, ids[n], pools, s', outcomes[n]);
      ResyncAllIsDistinct(s, ids[..n], pools, m, outcomes[..n]);
      PassIsDistinct(m, ids[n], pools, s', outcomes[n]);
    }
  }

  // ---- Whole runs ----

  /** A caller that supplies addresses itself supplies fresh ones. */
  ghost predicate SuppliesFresh(s: Store, c: Call) {
    c.op.Create? ==> match ParsePrefixes(c.op.texts) case Some(addrs) => Fresh(s, addrs) case None => true
  }

  lemma AssignStepIsDistinct(s: Store, c: Call, s': Store)
    requires Inv(s) && AllDistinct(s) && c.op.Assign? && Step(s, c, s')
    ensures AllDistinct(s')
  {
    var Assign(u, session, ext, info, now) := c.op;
    var r :| AssignStep(s, u, session, ext, info, now, c.faults, s', r);
    AssignIsDistinct(s, u, session, ext, info, now, c.faults, s', r);
  }

  lemma ResyncStepIsDistinct(s: Store, c: Call, s': Store)
    requires Inv(s) && AllDistinct(s) && c.op.ResyncTemplate? && Step(s, c, s')
    ensures AllDistinct(s')
  {
    var u := c.op.user;
    var r :| ResyncStep(s, u, c.faults, s', r);
    if r.Ok? {
      var ids, outcomes :|
        ListsRows(s, u, ids) && ResyncAll(s, ids, s.templates[u], s', outcomes) && r.value == Summary(outcomes);
      ResyncAllIsDistinct(s, ids, s.templates[u], s', outcomes);
    }
  }

  lemma StepIsDistinct(s: Store, c: Call, s': Store)
    requires Inv(s) && AllDistinct(s) && Step(s, c, s') && SuppliesFresh(s, c)
    ensures AllDistinct(s')
  {
    match c.op
    case Assign(_, _, _, _, _) =>
      AssignStepIsDistinct(s, c, s');
    case Create(u, _, _) =>
      if s' != s {
        var addrs, r := ManualCreates(s, c, s');
        CreateIsDistinct(s, u, "", "", addrs, c.faults, s', r);
      }
    case ResyncTemplate(_) =>
      ResyncStepIsDistinct(s, c, s');
    case _ =>
      OthersKeepAddresses(s, c, s');
  }

  lemma OthersKeepAddresses(s: Store, c: Call, s': Store)
    requires Step(s, c, s') && !c.op.Assign? && !c.op.Create? && !c.op.ResyncTemplate?
    ensures s'.servers == s.servers &&
      forall id :: id in s'.addresses ==> id in s.addresses && s'.addresses[id] == s.addresses[id]
  {
  }

  /** Over every run, whatever fails on the way, all device and server addresses
      stay pairwise distinct. */
  lemma {:induction false} RunIsDistinct(states: seq<Store>, calls: seq<Call>, i: nat)
    requires Run(states, calls) && Inv(states[0]) && AllDistinct(states[0]) && i < |states|
    requires forall k :: 0 <= k < |calls| ==> SuppliesFresh(states[k], calls[k])
    ensures AllDistinct(states[i])
  {
    if i > 0 {
      RunIsDistinct(states, calls, i - 1);
      RunKeeps(states, calls, i - 1);
      StepIsDistinct(states[i - 1], calls[i - 1], states[i]);
    }
  }
}
