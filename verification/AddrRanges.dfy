/** Address ranges: consecutive addresses of one subnet, and first-fit
    allocation from them (pkg/ip/ip.go). */
module AddrRanges {
  import opened Results
  import opened Octets
  import opened Masks

  datatype AddrRange = AddrRange(lower: Addr, upper: Addr, bits: Bits) {
    /** What AddrRangeFromPrefixes establishes for every range it builds. */
    predicate Valid() {
      lower <= upper && ToSubnetAddr(LoPrefix()) == ToSubnetAddr(UpPrefix())
    }

    function LoPrefix(): Prefix {
      Prefix(lower, bits)
    }

    function UpPrefix(): Prefix {
      Prefix(upper, bits)
    }

    predicate Contains(p: Prefix) {
      p.bits == bits && !(p.addr < lower || p.addr > upper)
    }

    function ToContainingSubnet(): Prefix {
      ToSubnetAddr(LoPrefix())
    }
  }

  datatype RangeError = DifferentMasks | WrongOrder | DifferentSubnets | NotASubnet | NoAddressRemaining

  function AddrRangeFromPrefixes(lower: Prefix, upper: Prefix): (r: Result<AddrRange, RangeError>)
    ensures r.Ok? ==> r.value.Valid() && r.value.LoPrefix() == lower && r.value.UpPrefix() == upper
  {
    if lower.bits != upper.bits then Err(DifferentMasks)
    else if lower.addr > upper.addr then Err(WrongOrder)
    else if ToSubnetAddr(lower) != ToSubnetAddr(upper) then Err(DifferentSubnets)
    else Ok(AddrRange(lower.addr, upper.addr, lower.bits))
  }

  /** Every valid range is what AddrRangeFromPrefixes builds from its own bounds. */
  lemma RangeOfItsBounds(ran: AddrRange)
    ensures AddrRangeFromPrefixes(ran.LoPrefix(), ran.UpPrefix()) == Ok(ran) <==> ran.Valid()
  {
  }

  // ---- Whole subnets as ranges ----

  function SubnetRange(subnet: Prefix): AddrRange {
    AddrRange(subnet.addr, Broadcast(subnet).addr, subnet.bits)
  }

  /** Fails on anything but a subnet address; the range construction at its end never fails. */
  method AddrRangeFromSubnet(subnet: Prefix) returns (r: Result<AddrRange, RangeError>)
    ensures r == if IsSubnetAddr(subnet) then Ok(SubnetRange(subnet)) else Err(NotASubnet)
  {
    if !IsSubnetAddr(subnet) {
      return Err(NotASubnet);
    }
    var broadcast := ToBroadcastAddress(subnet);
    EndsOfSubnet(subnet);
    r := AddrRangeFromPrefixes(subnet, broadcast);
  }

  /** The range of a subnet contains exactly the addresses of that mask length
      whose subnet it is, and its containing subnet is the subnet again. */
  lemma SubnetRangeIsSubnet(subnet: Prefix, p: Prefix)
    requires IsSubnetAddr(subnet)
    ensures SubnetRange(subnet).Valid()
    ensures SubnetRange(subnet).Contains(p) <==> p.bits == subnet.bits && ToSubnetAddr(p) == subnet
    ensures SubnetRange(subnet).ToContainingSubnet() == subnet
  {
    EndsOfSubnet(subnet);
    if p.bits == subnet.bits {
      SameSubnet(subnet, p);
    }
  }

  /** Every address of a range lies in the range's containing subnet. */
  lemma RangeWithinSubnet(ran: AddrRange, a: Addr)
    requires ran.Valid() && ran.lower <= a <= ran.upper
    ensures ToSubnetAddr(Prefix(a, ran.bits)) == ran.ToContainingSubnet()
    ensures Broadcast(Prefix(a, ran.bits)) == Broadcast(ran.LoPrefix())
    ensures ran.ToContainingSubnet().addr <= a <= Broadcast(ran.LoPrefix()).addr
  {
    EndsOfSubnet(ran.LoPrefix());
    SameSubnet(ran.LoPrefix(), ran.UpPrefix());
    SameSubnet(ran.LoPrefix(), Prefix(a, ran.bits));
  }

  // ---- First-fit allocation ----

  /** An address the range can still hand out: unused under any mask, and
      neither the subnet address nor the broadcast address. */
  ghost predicate Available(ran: AddrRange, used: iset<Addr>, a: Addr) {
    ran.lower <= a <= ran.upper && a !in used &&
    a != ToSubnetAddr(ran.LoPrefix()).addr && a != Broadcast(ran.LoPrefix()).addr
  }

  ghost predicate IsFirstAvailable(ran: AddrRange, used: iset<Addr>, a: Addr) {
    Available(ran, used, a) && forall b: Addr :: Available(ran, used, b) ==> a <= b
  }

  ghost function Elements(addrs: seq<Addr>): iset<Addr> {
    iset a | a in addrs
  }

  /** Returns the least available address, and fails exactly when there is none. */
  method FirstAvailableAddress(ran: AddrRange, used: seq<Addr>) returns (r: Result<Prefix, RangeError>)
    requires ran.Valid()
    ensures r.Ok? ==> r.value.bits == ran.bits && IsFirstAvailable(ran, Elements(used), r.value.addr)
    ensures r.Err? <==> forall a: Addr :: !Available(ran, Elements(used), a)
  {
    var chosen := Some(ran.lower);
    if IsSubnetAddr(ran.LoPrefix()) {
      chosen := Next(ran.lower);
    }
    while true
      invariant chosen.Some? ==> ran.lower <= chosen.value
      invariant chosen.Some? && chosen.value == ran.lower ==> !IsSubnetAddr(ran.LoPrefix())
      invariant forall a: Addr :: Available(ran, Elements(used), a) ==> chosen.Some? && chosen.value <= a
      decreases match chosen case None => 0 case Some(a) => 0x1_0000_0000 - a
    {
      if chosen.None? || chosen.value > ran.upper {
        return Err(NoAddressRemaining);
      }
      if chosen.value !in used {
        break;
      }
      chosen := Next(chosen.value);
    }
    var p := Prefix(chosen.value, ran.bits);
    RangeWithinSubnet(ran, p.addr);
    var isBroadcast := IsBroadcastAddress(p);
    if isBroadcast {
      forall a: Addr ensures !Available(ran, Elements(used), a) {
        if ran.lower <= a <= ran.upper { RangeWithinSubnet(ran, a); }
      }
      return Err(NoAddressRemaining);
    }
    assert Available(ran, Elements(used), p.addr);
    return Ok(p);
  }

  /** With masks of 31 and 32 digits nothing is ever available. */
  lemma NarrowMasksHaveNoAddress(ran: AddrRange, used: iset<Addr>, a: Addr)
    requires ran.Valid() && ran.bits >= 31
    ensures !Available(ran, used, a)
  {
    assert ClearLow(ran.lower, 32 - ran.bits) + 1 >= SetLow(ran.lower, 32 - ran.bits);
    if ran.lower <= a <= ran.upper { RangeWithinSubnet(ran, a); }
  }
}
