/** The address a network's own interface holds, seen from the allocator's side. */
module ServerAddr {
  import opened Wrappers
  import opened Cidr
  import opened Blocks
  import opened Inventory
  import opened InventoryRuns
  import Bytes = IpBytes

  /** First usable address of a readable IPv4 subnet, from its bytes. */
  function ServerOf(n: Network): nat
    requires ParseCIDR4(n.subnet).Some?
  {
    var (a, ones) := ParseCIDR4(n.subnet).value;
    Bytes.Value(Bytes.Next(Bytes.MaskIP(Bytes.Bytes4(a), ones)))
  }

  lemma ServerIsSecond(n: Network)
    requires IsValidPrivateCIDR(n.subnet)
    ensures ParseCIDR4(n.subnet).Some? && ServerOf(n) == Base(n) + 1
  {
    hide ParseCIDR4, PrivateOctets, Bytes.Value, Bytes.Next, Bytes.MaskIP, Bytes.Bytes4, Masked, Size;
    var (a, ones) := ParseCIDR4(n.subnet).value;
    Bytes.FirstUsable4(a, ones);
    BaseFacts(n);
  }

  /** No peer is ever given the address of its network's interface ... */
  lemma ServerNeverPicked(s: State, n: Network, role: string, sites: string, other: OtherAddrs)
    requires Orderly(s) && n in s.networks
    ensures ParseCIDR4(n.subnet).Some? && Pick(s, n.id, role, sites, other) != Some(ServerOf(n))
  {
    hide Pick, ServerOf, IsValidPrivateCIDR, ParseCIDR4, Base, Taken, Orderly;
    NetworkIsValid(s, n);
    ServerIsSecond(n);
    if Pick(s, n.id, role, sites, other).Some? {
      var m := PickedIsFree(s, n.id, role, sites, other);
      OneById(s, m, n);
    }
  }

  /** ... and in no run does any peer hold the address of any network's interface. */
  lemma ServerNeverHeld(ops: seq<Op>, other: OtherAddrs, i: nat, n: Network)
    requires i < |Run(ops, other).peers| && n in Run(ops, other).networks
    ensures ParseCIDR4(n.subnet).Some? && Tunnel(Run(ops, other).peers[i].allowedIPs) != Some(ServerOf(n))
  {
    hide Run, ServerOf, IsValidPrivateCIDR, ParseCIDR4, Base, Tunnel;
    ReservedNeverHeld(ops, other, i, n);
    ServerIsSecond(n);
  }
}
