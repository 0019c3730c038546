/** Binary digits of addresses, and an address's four octets. */
module Octets {

  /** An IPv4 address as its 32-bit number. */
  type Addr = a: int | 0 <= a < 0x1_0000_0000

  type Octet = x: int | 0 <= x < 0x100

  // ---- Bitwise operations ----

  /** Bitwise OR of the n lowest digits. */
  function Or(x: nat, y: nat, n: nat): nat {
    if n == 0 then 0 else 2 * Or(x / 2, y / 2, n - 1) + (if x % 2 == 1 || y % 2 == 1 then 1 else 0)
  }

  /** x with its h lowest digits cleared. */
  function ClearLow(x: nat, h: nat): (r: nat)
    ensures r <= x
  {
    if h == 0 then x else 2 * ClearLow(x / 2, h - 1)
  }

  /** x with its h lowest digits set. */
  function SetLow(x: nat, h: nat): (r: nat)
    ensures r >= x
  {
    if h == 0 then x else 2 * SetLow(x / 2, h - 1) + 1
  }

  /** The number whose n digits are all ones. */
  function Ones(n: nat): nat {
    if n == 0 then 0 else 2 * Ones(n - 1) + 1
  }

  /** Two numbers agree above the h lowest digits exactly when one lies between
      the other's least and greatest variants in those digits. */
  lemma {:induction false} SameHighDigits(x: nat, y: nat, h: nat)
    ensures ClearLow(x, h) == ClearLow(y, h) <==> ClearLow(x, h) <= y <= SetLow(x, h)
  {
    if h > 0 { SameHighDigits(x / 2, y / 2, h - 1); }
  }

  lemma {:induction false} SameSetLow(x: nat, y: nat, h: nat)
    ensures ClearLow(x, h) == ClearLow(y, h) <==> SetLow(x, h) == SetLow(y, h)
  {
    if h > 0 { SameSetLow(x / 2, y / 2, h - 1); }
  }

  lemma {:induction false} ClearLowTwice(x: nat, h: nat)
    ensures ClearLow(ClearLow(x, h), h) == ClearLow(x, h)
    ensures ClearLow(SetLow(x, h), h) == ClearLow(x, h)
  {
    if h > 0 { ClearLowTwice(x / 2, h - 1); }
  }

  lemma {:induction false} SetLowFits(x: nat, h: nat, n: nat)
    requires h <= n && x <= Ones(n)
    ensures SetLow(x, h) <= Ones(n)
  {
    if h > 0 { SetLowFits(x / 2, h - 1, n - 1); }
  }

  /** ORing in the host mask sets the host digits. */
  lemma {:induction false} OrOnes(x: nat, h: nat, n: nat)
    requires h <= n && x <= Ones(n)
    ensures Or(x, Ones(h), n) == SetLow(x, h)
  {
    if n == 0 {
    } else if h == 0 {
      OrOnes(x / 2, 0, n - 1);
    } else {
      assert Ones(h) / 2 == Ones(h - 1) && Ones(h) % 2 == 1;
      OrOnes(x / 2, h - 1, n - 1);
    }
  }

  /** Complementing a netmask gives the host mask. */
  lemma {:induction false} ComplementOfMask(h: nat, n: nat)
    requires h <= n
    ensures Ones(n) - ClearLow(Ones(n), h) == Ones(h)
  {
    if h > 0 { ComplementOfMask(h - 1, n - 1); }
  }

  // ---- Octets ----

  function As4(a: Addr): (bytes: seq<Octet>)
    ensures |bytes| == 4
  {
    var q := a / 0x100;
    var r := q / 0x100;
    [r / 0x100, r % 0x100, q % 0x100, a % 0x100]
  }

  function AddrFrom4(bytes: seq<Octet>): Addr
    requires |bytes| == 4
  {
    var b0: int, b1: int, b2: int, b3: int := bytes[0], bytes[1], bytes[2], bytes[3];
    b0 * 0x100_0000 + b1 * 0x1_0000 + b2 * 0x100 + b3
  }

  lemma OnesValues()
    ensures Ones(0) == 0 && Ones(8) == 0xFF && Ones(32) == 0xFFFF_FFFF
  {
    assert Ones(8) == 0xFF;
    OnesAndOctet(8);
    OnesAndOctet(16);
    OnesAndOctet(24);
  }

  lemma {:induction false} OnesAndOctet(n: nat)
    ensures Ones(n + 8) == 0x100 * Ones(n) + 0xFF
  {
    if n == 0 {
      assert Ones(8) == 0xFF;
    } else {
      OnesAndOctet(n - 1);
    }
  }

  function OrOctet(x: Octet, y: Octet): Octet {
    OrFits(x, y, 8);
    OnesValues();
    Or(x, y, 8)
  }

  lemma {:induction false} OrFits(x: nat, y: nat, n: nat)
    ensures Or(x, y, n) <= Ones(n)
  {
    if n > 0 { OrFits(x / 2, y / 2, n - 1); }
  }

  function Complement(x: Octet): Octet {
    0xFF - x
  }

  /** t with n zeros appended. */
  function Shift(t: nat, n: nat): nat {
    if n == 0 then t else 2 * Shift(t, n - 1)
  }

  /** The share of h digits that an n-digit tail takes. */
  function Share(h: nat, n: nat): (d: nat)
    ensures d <= h && d <= n
  {
    if h <= n then h else n
  }

  /** Halving a number drops the last digit of its n-digit tail. */
  lemma HalfOfShift(t: nat, x: nat, n: nat)
    requires n > 0
    ensures (Shift(t, n) + x) / 2 == Shift(t, n - 1) + x / 2
  {
  }

  lemma HalfOfTail(x: nat, n: nat)
    requires n > 0 && x <= Ones(n)
    ensures x / 2 <= Ones(n - 1)
  {
  }

  /** Of the h lowest digits of a number, up to n lie in its n-digit tail and the rest above it. */
  lemma {:induction false} ClearAcross(t: nat, x: nat, n: nat, h: nat)
    requires x <= Ones(n)
    ensures ClearLow(Shift(t, n) + x, h) == Shift(ClearLow(t, h - Share(h, n)), n) + ClearLow(x, Share(h, n))
  {
    if n > 0 && h > 0 {
      HalfOfShift(t, x, n);
      HalfOfTail(x, n);
      ClearAcross(t, x / 2, n - 1, h - 1);
      assert Share(h, n) == Share(h - 1, n - 1) + 1;
    }
  }

  lemma {:induction false} SetAcross(t: nat, x: nat, n: nat, h: nat)
    requires x <= Ones(n)
    ensures SetLow(Shift(t, n) + x, h) == Shift(SetLow(t, h - Share(h, n)), n) + SetLow(x, Share(h, n))
  {
    if n > 0 && h > 0 {
      HalfOfShift(t, x, n);
      HalfOfTail(x, n);
      SetAcross(t, x / 2, n - 1, h - 1);
      assert Share(h, n) == Share(h - 1, n - 1) + 1;
    }
  }

  /** The number whose base-256 digits are bytes. */
  function Value(bytes: seq<Octet>): nat {
    if bytes == [] then 0 else Shift(Value(bytes[..|bytes| - 1]), 8) + bytes[|bytes| - 1]
  }

  /** bytes with the h lowest digits of the whole number cleared. */
  function ClearBytes(bytes: seq<Octet>, h: nat): (r: seq<Octet>)
    ensures |r| == |bytes|
  {
    if bytes == [] then []
    else ClearBytes(bytes[..|bytes| - 1], h - Share(h, 8)) + [ClearLow(bytes[|bytes| - 1], Share(h, 8))]
  }

  /** r is bytes with the h lowest digits of the whole number set. */
  predicate IsSetBytes(r: seq<Octet>, bytes: seq<Octet>, h: nat)
    requires |r| == |bytes|
  {
    bytes == [] ||
    (var n := |bytes| - 1;
     r[n] == SetLow(bytes[n], Share(h, 8)) && IsSetBytes(r[..n], bytes[..n], h - Share(h, 8)))
  }

  lemma ClearLastOctet(t: nat, x: Octet, h: nat)
    ensures ClearLow(Shift(t, 8) + x, h) == Shift(ClearLow(t, h - Share(h, 8)), 8) + ClearLow(x, Share(h, 8))
  {
    OnesValues();
    ClearAcross(t, x, 8, h);
  }

  lemma SetLastOctet(t: nat, x: Octet, h: nat)
    ensures SetLow(Shift(t, 8) + x, h) == Shift(SetLow(t, h - Share(h, 8)), 8) + SetLow(x, Share(h, 8))
  {
    OnesValues();
    SetAcross(t, x, 8, h);
  }

  /** Clearing digits octet by octet clears the digits of the whole number. */
  lemma {:induction false} ClearByOctet(bytes: seq<Octet>, h: nat)
    requires h <= 8 * |bytes|
    ensures ClearLow(Value(bytes), h) == Value(ClearBytes(bytes, h))
  {
    if bytes != [] {
      var n, d := |bytes| - 1, Share(h, 8);
      ClearByOctet(bytes[..n], h - d);
      ClearLastOctet(Value(bytes[..n]), bytes[n], h);
      ValueOfSnoc(ClearBytes(bytes[..n], h - d), ClearLow(bytes[n], d));
    }
  }

  /** Setting digits octet by octet sets the digits of the whole number. */
  lemma {:induction false} SetByOctet(r: seq<Octet>, bytes: seq<Octet>, h: nat)
    requires |r| == |bytes| && h <= 8 * |bytes| && IsSetBytes(r, bytes, h)
    ensures SetLow(Value(bytes), h) == Value(r)
  {
    if bytes != [] {
      var n := |bytes| - 1;
      SetByOctet(r[..n], bytes[..n], h - Share(h, 8));
      SetLastOctet(Value(bytes[..n]), bytes[n], h);
    }
  }

  lemma ValueOfSnoc(bytes: seq<Octet>, x: Octet)
    ensures Value(bytes + [x]) == Shift(Value(bytes), 8) + x
  {
    assert (bytes + [x])[..|bytes|] == bytes;
  }

  lemma ShiftOctet(t: nat)
    ensures Shift(t, 8) == 0x100 * t
  {
    assert Shift(t, 1) == 2 * t;
    assert Shift(t, 3) == 4 * Shift(t, 1);
    assert Shift(t, 5) == 4 * Shift(t, 3);
    assert Shift(t, 7) == 4 * Shift(t, 5);
  }

  /** ORing each octet with the complement of the netmask's octet sets the host digits. */
  lemma {:induction false} OrEachOctet(bytes: seq<Octet>, ones: seq<Octet>, r: seq<Octet>, h: nat)
    requires |bytes| == |ones| == |r|
    requires forall k :: 0 <= k < |ones| ==> ones[k] == 0xFF
    requires forall k :: 0 <= k < |r| ==> r[k] == OrOctet(bytes[k], Complement(ClearBytes(ones, h)[k]))
    ensures IsSetBytes(r, bytes, h)
  {
    if bytes != [] {
      var n := |bytes| - 1;
      forall k | 0 <= k < n ensures ClearBytes(ones, h)[k] == ClearBytes(ones[..n], h - Share(h, 8))[k] {
      }
      OrEachOctet(bytes[..n], ones[..n], r[..n], h - Share(h, 8));
      OrHostMask(bytes[n], Share(h, 8));
    }
  }

  lemma OrHostMask(x: Octet, h: nat)
    requires h <= 8
    ensures ClearLow(0xFF, h) <= 0xFF && OrOctet(x, Complement(ClearLow(0xFF, h))) == SetLow(x, h)
  {
    OnesValues();
    ComplementOfMask(h, 8);
    OrOnes(x, h, 8);
  }

  lemma ValueOfFour(b: seq<Octet>)
    requires |b| == 4
    ensures Value(b) == AddrFrom4(b)
  {
    var b0: nat, b1: nat, b2: nat := b[0], b[1], b[2];
    ValueOfSnoc([], b[0]);
    ValueOfSnoc([b[0]], b[1]);
    ValueOfSnoc([b[0], b[1]], b[2]);
    ValueOfSnoc([b[0], b[1], b[2]], b[3]);
    ShiftOctet(0);
    ShiftOctet(b0);
    ShiftOctet(0x100 * b0 + b1);
    ShiftOctet(0x1_0000 * b0 + 0x100 * b1 + b2);
    assert b == [b[0], b[1], b[2]] + [b[3]];
    assert [b[0], b[1], b[2]] == [b[0], b[1]] + [b[2]] && [b[0], b[1]] == [b[0]] + [b[1]] && [b[0]] == [] + [b[0]];
  }

  lemma As4Unique(a: Addr, b0: Octet, b1: Octet, b2: Octet, b3: Octet)
    requires a == AddrFrom4([b0, b1, b2, b3])
    ensures As4(a) == [b0, b1, b2, b3]
  {
    assert a / 0x100 == b0 * 0x1_0000 + b1 * 0x100 + b2;
    assert a / 0x100 / 0x100 == b0 * 0x100 + b1;
  }

  lemma As4Inverse(a: Addr)
    ensures AddrFrom4(As4(a)) == a
  {
  }
}
