/** Validation of address pools as users enter them (service/user/address_pool.go). */
module PoolValidation {
  import opened Results
  import opened Octets
  import opened Masks
  import opened AddressPools
  import opened IpText

  /** A pool as the API carries it: addresses are text and the mask is any integer. */
  datatype PoolText = PoolText(name: string, startAddr: string, endAddr: string, netMask: int)

  datatype PoolError = EmptyName | BadStart | BadEnd | StartAfterEnd | BadMask | OutsideSubnet

  const MAX_IP4_MASK := 32

  // ---- Library operation of net/netip ----

  /** x shifted right by h digits. */
  function DropLow(x: nat, h: nat): nat {
    if h == 0 then x else DropLow(x / 2, h - 1)
  }

  /** Prefix.Contains: the addresses agree in all but the host digits. */
  predicate PrefixContains(p: Prefix, a: Addr) {
    DropLow(p.addr, 32 - p.bits) == DropLow(a, 32 - p.bits)
  }

  lemma {:induction false} SameDropLow(x: nat, y: nat, h: nat)
    ensures DropLow(x, h) == DropLow(y, h) <==> ClearLow(x, h) == ClearLow(y, h)
  {
    if h > 0 { SameDropLow(x / 2, y / 2, h - 1); }
  }

  // ---- Validation ----

  function ValidateAddressPool(p: PoolText): Result<(), PoolError> {
    if p.name == "" then Err(EmptyName)
    else match (ParseAddr(p.startAddr), ParseAddr(p.endAddr))
      case (None, _) => Err(BadStart)
      case (_, None) => Err(BadEnd)
      case (Some(start), Some(end)) => ValidateParsedPool(start, end, p.netMask)
  }

  function ValidateParsedPool(start: Addr, end: Addr, netMask: int): Result<(), PoolError> {
    if start > end then Err(StartAfterEnd)
    else if netMask < 0 || netMask > MAX_IP4_MASK then Err(BadMask)
    else
      var prefix := Prefix(start, netMask);
      if !PrefixContains(prefix, start) || !PrefixContains(prefix, end) then Err(OutsideSubnet) else Ok(())
  }

  /** The row stored for a pool whose addresses parse and whose mask is an IPv4 mask. */
  function Stored(p: PoolText, id: int): Option<AddressPool> {
    match (ParseAddr(p.startAddr), ParseAddr(p.endAddr))
    case (Some(start), Some(end)) =>
      if 0 <= p.netMask <= MAX_IP4_MASK then Some(AddressPool(id, p.name, start, end, p.netMask)) else None
    case _ => None
  }

  /** Validation accepts exactly the named pools that can be stored and whose
      range can be built when an address is allocated from them. */
  lemma ValidationMatchesUse(p: PoolText, id: int)
    ensures ValidateAddressPool(p).Ok? <==>
      p.name != "" && Stored(p, id).Some? && PoolRange(Stored(p, id).value).Ok?
  {
    if Stored(p, id).Some? {
      var pool := Stored(p, id).value;
      SameDropLow(pool.start, pool.end, 32 - pool.mask);
    }
  }

  /** Validation accepts exactly the pools with a name and a mask from 0 to 32 whose texts are
      those of two addresses, in order and in one block of 2^(32 - mask) addresses. */
  lemma ValidatesExactly(p: PoolText)
    ensures ValidateAddressPool(p).Ok? <==> p.name != "" && exists start: Addr, end: Addr ::
      Writes(p, start, end) && GoodBounds(start, end, p.netMask)
  {
    WrittenExactly(p);
    match (ParseAddr(p.startAddr), ParseAddr(p.endAddr))
    case (Some(start), Some(end)) => ParsedValidatesExactly(start, end, p.netMask);
    case _ =>
  }

  /** The pool's texts are those of the two addresses. */
  predicate Writes(p: PoolText, start: Addr, end: Addr) {
    p.startAddr == PrintAddr(start) && p.endAddr == PrintAddr(end)
  }

  predicate GoodBounds(start: Addr, end: Addr, netMask: int) {
    0 <= netMask <= 32 && start <= end && BlockStart(start, netMask) == BlockStart(end, netMask)
  }

  lemma ParsedValidatesExactly(start: Addr, end: Addr, netMask: int)
    ensures ValidateParsedPool(start, end, netMask).Ok? <==> GoodBounds(start, end, netMask)
  {
    if 0 <= netMask <= 32 {
      SameDropLow(start, end, 32 - netMask);
      ClearLowRounds(start, 32 - netMask);
      ClearLowRounds(end, 32 - netMask);
    }
  }

  lemma WrittenExactly(p: PoolText)
    ensures forall a: Addr, b: Addr ::
      Writes(p, a, b) <==> ParseAddr(p.startAddr) == Some(a) && ParseAddr(p.endAddr) == Some(b)
  {
    forall a: Addr, b: Addr
      ensures Writes(p, a, b) <==> ParseAddr(p.startAddr) == Some(a) && ParseAddr(p.endAddr) == Some(b)
    {
      AddrText(p.startAddr, a);
      AddrText(p.endAddr, b);
    }
  }

  /** Validation does not depend on how an accepted text was written: the stored
      pool, printed back, is the text that was entered. */
  lemma StoredPrintsBack(p: PoolText, id: int)
    requires ValidateAddressPool(p).Ok?
    ensures var pool := Stored(p, id).value;
      p == PoolText(pool.name, PrintAddr(pool.start), PrintAddr(pool.end), pool.mask)
  {
    var pool := Stored(p, id).value;
    AddrText(p.startAddr, pool.start);
    AddrText(p.endAddr, pool.end);
  }

  ghost predicate AllValidated(texts: seq<PoolText>, pools: seq<AddressPool>) {
    |texts| == |pools| && forall k :: 0 <= k < |pools| ==>
      ValidateAddressPool(texts[k]).Ok? && Stored(texts[k], pools[k].id) == Some(pools[k])
  }

  ghost predicate NoSharedAddress(pools: seq<AddressPool>) {
    forall i, j, a: Addr :: 0 <= i < j < |pools| && InPool(a, pools[i]) ==> !InPool(a, pools[j])
  }

  /** Validated pools never fail an allocation at range construction. */
  lemma ValidatedAreUsable(texts: seq<PoolText>, pools: seq<AddressPool>)
    requires AllValidated(texts, pools)
    ensures Usable(pools)
  {
    forall k | 0 <= k < |pools| ensures PoolRange(pools[k]).Ok? {
      ValidationMatchesUse(texts[k], pools[k].id);
    }
  }

  /** On validated pools, VerifyPoolsNotOverlap succeeds exactly when no address lies in two of them. */
  lemma DisjointMeansNoSharedAddress(texts: seq<PoolText>, pools: seq<AddressPool>)
    requires AllValidated(texts, pools)
    ensures Disjoint(pools) <==> NoSharedAddress(pools)
  {
    forall i, j | 0 <= i < j < |pools|
      ensures PoolsOverlap(pools[i], pools[j]) <==> exists a: Addr :: InPool(a, pools[i]) && InPool(a, pools[j])
    {
      ValidationMatchesUse(texts[i], pools[i].id);
      ValidationMatchesUse(texts[j], pools[j].id);
      OverlapIsSharedAddress(pools[i], pools[j]);
    }
  }
}
