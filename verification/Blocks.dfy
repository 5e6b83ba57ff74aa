/** CIDR blocks as ranges of addresses: they are nested or disjoint. */
module Blocks {
  import opened Arith
  import opened Cidr

  /** The address lies in the block, as the library's Contains decides it. */
  predicate Contains(base: nat, ones: nat, addr: nat)
    requires ones <= 32
  {
    Masked(addr, ones) == Masked(base, ones)
  }

  lemma ContainsIsRange(base: nat, ones: nat, addr: nat)
    requires ones <= 32 && base % Size(ones) == 0
    ensures Contains(base, ones, addr) <==> base <= addr < base + Size(ones)
  {
    MaskedUnique(base, base, ones);
    if base <= addr < base + Size(ones) {
      MaskedUnique(addr, base, ones);
    }
  }

  lemma FitsBelow(x: nat, y: nat, k: nat)
    requires k > 0 && x % k == 0 && x <= y
    ensures x <= y / k * k
  {
    DivMod(x, k);
    DivMonotone(x, y, k);
    MulMonotone(x / k, y / k, k);
  }

  lemma MultipleOfFactor(x: nat, k: nat, m: nat)
    requires k > 0 && m > 0 && k * m > 0 && x % (k * m) == 0
    ensures x % k == 0
  {
    var q := x / (k * m);
    DivMod(x, k * m);
    assert x == (q * m) * k;
    ModOfMultiple(q * m, k);
  }

  /** Masking to a longer prefix first changes nothing. */
  lemma MaskedTwice(x: nat, p: nat, q: nat)
    requires p <= q <= 32
    ensures Masked(Masked(x, q), p) == Masked(x, p)
  {
    var b := Masked(x, p);
    Pow2Add(32 - q, q - p);
    assert Size(p) == Size(q) * Pow2(q - p);
    MultipleOfFactor(b, Size(q), Pow2(q - p));
    FitsBelow(b, x, Size(q));
    MaskedUnique(Masked(x, q), b, p);
  }

  ghost predicate Shares(b1: nat, p1: nat, b2: nat, p2: nat)
    requires p1 <= 32 && p2 <= 32
  {
    exists x: nat :: Contains(b1, p1, x) && Contains(b2, p2, x)
  }

  /** The overlap test of network creation: either base lies in the other block. */
  predicate Overlaps(b1: nat, p1: nat, b2: nat, p2: nat)
    requires p1 <= 32 && p2 <= 32
  {
    Contains(b1, p1, b2) || Contains(b2, p2, b1)
  }

  /** It holds exactly when the blocks have an address in common. */
  lemma OverlapIsSharing(b1: nat, p1: nat, b2: nat, p2: nat)
    requires p1 <= 32 && p2 <= 32
    ensures Overlaps(b1, p1, b2, p2) <==> Shares(b1, p1, b2, p2)
  {
    if Contains(b1, p1, b2) {
      assert Contains(b1, p1, b2) && Contains(b2, p2, b2);
    }
    if Contains(b2, p2, b1) {
      assert Contains(b1, p1, b1) && Contains(b2, p2, b1);
    }
    if Shares(b1, p1, b2, p2) {
      var x: nat :| Contains(b1, p1, x) && Contains(b2, p2, x);
      if p1 <= p2 {
        MaskedTwice(x, p1, p2);
        MaskedTwice(b2, p1, p2);
      } else {
        MaskedTwice(x, p2, p1);
        MaskedTwice(b1, p2, p1);
      }
    }
  }

  /** Host bits of either address make no difference to it. */
  lemma MaskedOverlap(a: nat, p: nat, b: nat, q: nat)
    requires p <= 32 && q <= 32
    ensures Overlaps(Masked(a, p), p, Masked(b, q), q) <==> Shares(a, p, b, q)
  {
    OverlapIsSharing(Masked(a, p), p, Masked(b, q), q);
    MaskedTwice(a, p, p);
    MaskedTwice(b, q, q);
    if Shares(a, p, b, q) {
      var x: nat :| Contains(a, p, x) && Contains(b, q, x);
      assert Contains(Masked(a, p), p, x) && Contains(Masked(b, q), q, x);
    }
    if Shares(Masked(a, p), p, Masked(b, q), q) {
      var x: nat :| Contains(Masked(a, p), p, x) && Contains(Masked(b, q), q, x);
      assert Contains(a, p, x) && Contains(b, q, x);
    }
  }

  /** A block ends inside the address space. */
  lemma BlockFits(base: nat, ones: nat)
    requires ones <= 32 && base < ADDRESSES && base % Size(ones) == 0
    ensures base + Size(ones) <= ADDRESSES
  {
    SizeDivides(ones);
    assert Size(ones) * Pow2(ones) == Pow2(ones) * Size(ones);
    RoomForOne(base, Pow2(ones), Size(ones));
  }

  // ----- Private ranges -----

  /** Section 3 of RFC 1918: 10/8, 172.16/12 and 192.168/16. */
  predicate Rfc1918(a: nat) {
    || 0x0A00_0000 <= a <= 0x0AFF_FFFF
    || 0xAC10_0000 <= a <= 0xAC1F_FFFF
    || 0xC0A8_0000 <= a <= 0xC0A8_FFFF
  }

  /** The check on the first octets of the address as written, host bits included. */
  predicate PrivateOctets(a: nat) {
    var o0, o1 := a / 0x100_0000, a / 0x1_0000 % 256;
    o0 == 10 || (o0 == 172 && 16 <= o1 <= 31) || (o0 == 192 && o1 == 168)
  }

  predicate IsValidPrivateCIDR(cidr: string) {
    match ParseCIDR4(cidr)
    case None => false
    case Some((a, ones)) => 16 <= ones <= 30 && PrivateOctets(a)
  }

  lemma Top16(x: nat)
    ensures Masked(x, 16) == x / 0x1_0000 * 0x1_0000
  {
    assert Pow2(8) == 256;
    Pow2Add(8, 8);
  }

  /** The octets tell exactly the private addresses ... */
  lemma OctetsExactly(a: nat)
    ensures PrivateOctets(a) <==> Rfc1918(a)
  {
  }

  /** ... so the validator accepts exactly the private subnets from /16 to /30. */
  lemma AcceptedExactly(cidr: string)
    ensures IsValidPrivateCIDR(cidr) <==>
            && ParseCIDR4(cidr).Some?
            && var (a, ones) := ParseCIDR4(cidr).value;
               16 <= ones <= 30 && Rfc1918(a)
  {
    hide ParseCIDR4, PrivateOctets, Rfc1918;
    if ParseCIDR4(cidr).Some? {
      OctetsExactly(ParseCIDR4(cidr).value.0);
    }
  }

  /** Every address of an accepted subnet is private. */
  lemma AcceptedIsPrivate(cidr: string, x: nat)
    requires IsValidPrivateCIDR(cidr)
    requires var (a, ones) := ParseCIDR4(cidr).value; Contains(a, ones, x)
    ensures Rfc1918(x)
  {
    var (a, ones) := ParseCIDR4(cidr).value;
    MaskedTwice(x, 16, ones);
    MaskedTwice(a, 16, ones);
    Top16(x);
    Top16(a);
    assert x / 0x1_0000 == a / 0x1_0000;
    assert a / 0x100_0000 == a / 0x1_0000 / 256;
  }
}
