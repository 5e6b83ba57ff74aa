/** A system with one network and no peers, from which the failing runs start. */
module Sample {
  import opened Wrappers
  import opened Arith
  import opened Cidr
  import opened Blocks
  import opened Inventory
  import opened InventoryRuns

  const NET: nat := 0x0A00_0000

  function Subnet(): string {
    CidrText(NET, 24)
  }

  function Create(): Op {
    NewNetwork(Subnet(), 51820, true)
  }

  lemma SubnetReads()
    ensures ParseCIDR4(Subnet()) == Some((NET, 24)) && IsValidPrivateCIDR(Subnet())
  {
    hide CidrText, ParseIPv4;
    Cidr4RoundTrip(NET, 24);
  }

  lemma SizeOf24()
    ensures Size(24) == 256 && Masked(NET, 24) == NET
  {
    assert Pow2(8) == 256;
    MaskedUnique(NET, NET, 24);
  }

  /** One network with id 1 on 10.0.0.0/24. */
  ghost predicate Single(s: State) {
    |s.networks| == 1 && s.networks[0].id == 1 && s.networks[0].subnet == Subnet()
  }

  lemma Created(other: OtherAddrs)
    ensures var s := Step(Empty, Create(), other);
            Single(s) && s.peers == [] && s.nextPeer == 1 && Orderly(s) && s == Run([Create()], other)
  {
    hide Subnet, ParseCIDR4, IsValidPrivateCIDR, NextIndex, Orderly;
    SubnetReads();
    assert [Create()][..0] == [];
    RunKeeps([Create()], other);
  }

  /** In that network a create is granted the least address from .2 up that no row uses. */
  lemma PickIn(s: State, role: string, sites: string, other: OtherAddrs, x: nat)
    requires Orderly(s) && Single(s) && ValidRole(role, sites, other) && NET + 2 <= x < NET + 255
    requires PrintIPv4(x) !in UsedTexts(s.peers, 1, other)
    requires forall z :: NET + 2 <= z < x ==> PrintIPv4(z) in UsedTexts(s.peers, 1, other)
    ensures Pick(s, 1, role, sites, other) == Some(x)
  {
    hide Subnet, PrintIPv4, ParseCIDR4, UsedTexts, ValidSites, IsValidPrivateCIDR, Orderly, Pick;
    SubnetReads();
    var n := s.networks[0];
    Bounds(n);
    PickExactly(s, 1, role, sites, other, n, x);
  }

  lemma Bounds(n: Network)
    requires n.subnet == Subnet()
    ensures IsValidPrivateCIDR(n.subnet) && Base(n) == NET && End(n) == NET + 256
  {
    hide Subnet, ParseIPv4, Masked;
    SubnetReads();
    SizeOf24();
  }
}
