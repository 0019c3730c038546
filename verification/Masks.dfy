/** IPv4 addresses in CIDR notation, and their subnet and broadcast addresses
    (pkg/ip/ip.go). */
module Masks {
  import opened Results
  import opened Arithmetic
  import opened Octets

  type Bits = b: int | 0 <= b <= 32

  /** A full address with its mask length (an unmasked netip.Prefix). */
  datatype Prefix = Prefix(addr: Addr, bits: Bits)

  // ---- Library operations of net/netip ----

  /** Addr.Next: the successor, or the invalid address after 255.255.255.255. */
  function Next(a: Addr): Option<Addr> {
    if a == 0xFFFF_FFFF then None else Some(a + 1)
  }

  /** Prefix.Masked: all host digits cleared. */
  function Masked(p: Prefix): Prefix {
    Prefix(ClearLow(p.addr, 32 - p.bits), p.bits)
  }

  // ---- Subnet and broadcast addresses ----

  function ToSubnetAddr(p: Prefix): Prefix {
    Masked(p)
  }

  predicate IsSubnetAddr(p: Prefix) {
    p == ToSubnetAddr(p)
  }

  /** p with all host digits set. */
  function Broadcast(p: Prefix): Prefix {
    OnesValues();
    SetLowFits(p.addr, 32 - p.bits, 32);
    Prefix(SetLow(p.addr, 32 - p.bits), p.bits)
  }

  /** Octet by octet, ORs in the complement of the netmask. */
  method ToBroadcastAddress(p: Prefix) returns (r: Prefix)
    ensures r == Broadcast(p)
  {
    var bytes := As4(p.addr);
    var addr4 := new Octet[4](i requires 0 <= i < 4 => bytes[i]);
    var mask4 := As4(Masked(Prefix(0xFFFF_FFFF, p.bits)).addr);
    var i := 0;
    while i < 4
      invariant 0 <= i <= 4
      invariant forall k :: 0 <= k < i ==> addr4[k] == OrOctet(bytes[k], Complement(mask4[k]))
      invariant forall k :: i <= k < 4 ==> addr4[k] == bytes[k]
    {
      addr4[i] := OrOctet(addr4[i], Complement(mask4[i]));
      i := i + 1;
    }
    r := Prefix(AddrFrom4(addr4[..]), p.bits);
    OrLoopIsBroadcast(p, addr4[..]);
  }

  lemma OrLoopIsBroadcast(p: Prefix, addr4: seq<Octet>)
    requires |addr4| == 4
    requires forall k :: 0 <= k < 4 ==>
      addr4[k] == OrOctet(As4(p.addr)[k], Complement(As4(Masked(Prefix(0xFFFF_FFFF, p.bits)).addr)[k]))
    ensures AddrFrom4(addr4) == Broadcast(p).addr
  {
    var ones: seq<Octet> := [0xFF, 0xFF, 0xFF, 0xFF];
    NetmaskOctets(p.bits);
    OrEachOctet(As4(p.addr), ones, addr4, 32 - p.bits);
    SetByOctet(addr4, As4(p.addr), 32 - p.bits);
    As4Inverse(p.addr);
    ValueOfFour(As4(p.addr));
    ValueOfFour(addr4);
  }

  lemma NetmaskOctets(b: Bits)
    ensures As4(Masked(Prefix(0xFFFF_FFFF, b)).addr) == ClearBytes([0xFF, 0xFF, 0xFF, 0xFF], 32 - b)
  {
    var ones: seq<Octet> := [0xFF, 0xFF, 0xFF, 0xFF];
    var m := ClearBytes(ones, 32 - b);
    ClearByOctet(ones, 32 - b);
    ValueOfFour(ones);
    ValueOfFour(m);
    As4Unique(ClearLow(0xFFFF_FFFF, 32 - b), m[0], m[1], m[2], m[3]);
  }

  method IsBroadcastAddress(p: Prefix) returns (yes: bool)
    ensures yes <==> p.addr == Broadcast(p).addr
  {
    var broadcast := ToBroadcastAddress(p);
    yes := p == broadcast;
  }

  /** The first address of the block of 2^(32 - bits) addresses that a lies in. */
  function BlockStart(a: int, bits: Bits): int {
    a / Pow2(32 - bits) * Pow2(32 - bits)
  }

  /** A subnet is a block of 2^(32 - b) addresses starting at a multiple of its
      size: the subnet address is the block's first address and the broadcast
      address its last. */
  lemma SubnetIsBlock(p: Prefix)
    ensures var n := Pow2(32 - p.bits);
      && ToSubnetAddr(p).addr == p.addr / n * n
      && Broadcast(p).addr == p.addr / n * n + n - 1
  {
    ClearLowRounds(p.addr, 32 - p.bits);
  }

  lemma {:induction false} ClearLowRounds(x: nat, h: nat)
    ensures ClearLow(x, h) == x / Pow2(h) * Pow2(h) && SetLow(x, h) == ClearLow(x, h) + Pow2(h) - 1
  {
    if h > 0 {
      ClearLowRounds(x / 2, h - 1);
      RoundTwice(x, Pow2(h - 1));
    }
  }

  /** Two addresses share a subnet exactly when one lies between the other's
      subnet and broadcast addresses. */
  lemma SameSubnet(p: Prefix, q: Prefix)
    requires p.bits == q.bits
    ensures ToSubnetAddr(p) == ToSubnetAddr(q) <==> ToSubnetAddr(p).addr <= q.addr <= Broadcast(p).addr
    ensures ToSubnetAddr(p) == ToSubnetAddr(q) <==> Broadcast(p) == Broadcast(q)
  {
    SameHighDigits(p.addr, q.addr, 32 - p.bits);
    SameSetLow(p.addr, q.addr, 32 - p.bits);
  }

  /** The subnet and broadcast addresses lie in the subnet themselves. */
  lemma EndsOfSubnet(p: Prefix)
    ensures ToSubnetAddr(ToSubnetAddr(p)) == ToSubnetAddr(p) == ToSubnetAddr(Broadcast(p))
    ensures ToSubnetAddr(p).addr <= p.addr <= Broadcast(p).addr
  {
    ClearLowTwice(p.addr, 32 - p.bits);
  }
}
