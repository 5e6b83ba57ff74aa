/** What every run of network and peer creates and deletes keeps. */
module InventoryRuns {
  import opened Wrappers
  import opened Text
  import opened Cidr
  import opened Blocks
  import opened Inventory
  import Pool = IpPool
  import Alloc = IpAlloc

  // ----- Networks -----

  function Base(n: Network): nat
    requires IsValidPrivateCIDR(n.subnet)
  {
    Masked(ParseCIDR4(n.subnet).value.0, ParseCIDR4(n.subnet).value.1)
  }

  function Ones(n: Network): (p: nat)
    requires IsValidPrivateCIDR(n.subnet)
    ensures 16 <= p <= 30
  {
    ParseCIDR4(n.subnet).value.1
  }

  function End(n: Network): nat
    requires IsValidPrivateCIDR(n.subnet)
  {
    Base(n) + Size(Ones(n))
  }

  lemma BaseFacts(n: Network)
    requires IsValidPrivateCIDR(n.subnet)
    ensures Base(n) % Size(Ones(n)) == 0 && Base(n) + 4 <= End(n) <= ADDRESSES
    ensures Masked(Base(n), Ones(n)) == Base(n)
  {
    BlockFits(Base(n), Ones(n));
    Alloc.AtLeastFour(Ones(n));
    MaskedUnique(Base(n), Base(n), Ones(n));
  }

  predicate Apart(m: Network, n: Network)
    requires IsValidPrivateCIDR(m.subnet) && IsValidPrivateCIDR(n.subnet)
  {
    m.id != n.id && m.iface != n.iface && m.port != n.port && !Overlaps(Base(m), Ones(m), Base(n), Ones(n))
  }

  /** No address lies in two subnets. */
  lemma ApartDisjoint(m: Network, n: Network, x: nat, y: nat)
    requires IsValidPrivateCIDR(m.subnet) && IsValidPrivateCIDR(n.subnet) && Apart(m, n)
    requires Base(m) <= x < End(m) && Base(n) <= y < End(n)
    ensures x != y
  {
    BaseFacts(m);
    BaseFacts(n);
    OverlapIsSharing(Base(m), Ones(m), Base(n), Ones(n));
    ContainsIsRange(Base(m), Ones(m), x);
    ContainsIsRange(Base(n), Ones(n), y);
  }

  ghost predicate NetworksOk(ns: seq<Network>, next: nat) {
    && (forall i :: 0 <= i < |ns| ==> IsValidPrivateCIDR(ns[i].subnet) && ns[i].id < next)
    && (forall i, j :: 0 <= i < j < |ns| ==> Apart(ns[i], ns[j]))
  }

  lemma CreateNetworkKeeps(s: State, subnet: string, port: int, rest: bool)
    requires NetworksOk(s.networks, s.nextNetwork)
    ensures NetworksOk(CreateNetwork(s, subnet, port, rest).networks, CreateNetwork(s, subnet, port, rest).nextNetwork)
  {
    hide Apart, ParseCIDR4, IsValidPrivateCIDR, SubnetTaken, PortTaken, NextIndex, IfaceName, Ifaces;
    var s' := CreateNetwork(s, subnet, port, rest);
    if s' != s {
      var n := s'.networks[|s.networks|];
      NextIndexIsLeast(Ifaces(s.networks), 0);
      forall i | 0 <= i < |s.networks|
        ensures Apart(s.networks[i], n)
      {
        NewIsApart(s, s.networks[i], n);
      }
    }
  }

  lemma NewIsApart(s: State, m: Network, n: Network)
    requires m in s.networks && IsValidPrivateCIDR(m.subnet) && m.id < s.nextNetwork
    requires IsValidPrivateCIDR(n.subnet) && n.id == s.nextNetwork && !PortTaken(s.networks, n.port)
    requires !SubnetTaken(s.networks, ParseCIDR4(n.subnet).value.0, ParseCIDR4(n.subnet).value.1)
    requires n.iface !in Ifaces(s.networks)
    ensures Apart(m, n)
  {
    hide ParseIPv4, Masked, Contains;
    var p := ParseCIDR4(n.subnet).value;
    assert !Conflicts(m, p.0, p.1);
    assert m.iface in Ifaces(s.networks);
  }

  lemma {:induction false} KeepNetworksFacts(ns: seq<Network>, id: nat)
    ensures forall n :: n in KeepNetworks(ns, id) <==> n in ns && n.id != id
    ensures forall next :: NetworksOk(ns, next) ==> NetworksOk(KeepNetworks(ns, id), next)
  {
    hide Apart, IsValidPrivateCIDR;
    if ns != [] {
      var k := |ns| - 1;
      KeepNetworksFacts(ns[..k], id);
      assert ns == ns[..k] + [ns[k]];
      forall next | NetworksOk(ns, next)
        ensures NetworksOk(KeepNetworks(ns, id), next)
      {
        assert NetworksOk(ns[..k], next);
        KeepOneMore(ns, KeepNetworks(ns[..k], id), next);
      }
    }
  }

  lemma KeepOneMore(ns: seq<Network>, kept: seq<Network>, next: nat)
    requires ns != [] && NetworksOk(ns, next) && NetworksOk(kept, next)
    requires forall n :: n in kept ==> n in ns[..|ns| - 1]
    ensures NetworksOk(kept + [ns[|ns| - 1]], next)
  {
    hide Apart, IsValidPrivateCIDR;
    forall i | 0 <= i < |kept|
      ensures Apart(kept[i], ns[|ns| - 1])
    {
      assert kept[i] in kept;
      var j :| 0 <= j < |ns| - 1 && ns[j] == kept[i];
    }
  }

  // ----- Peers -----

  /** A peer's tunnel address: the /32 that opens its AllowedIPs. */
  function Tunnel(allowedIPs: string): Option<nat> {
    match ParseCIDR4(TrimSpace(Split(allowedIPs, ',')[0]))
    case Some((a, ones)) => if ones == 32 then Some(a) else None
    case None => None
  }

  lemma CidrTextPlain(a: nat)
    requires a < ADDRESSES
    ensures forall c :: c in CidrText(a, 32) ==> IsDigit(c) || c == '.' || c == '/'
    ensures CidrText(a, 32) != "" && ',' !in CidrText(a, 32) && Unspaced(CidrText(a, 32))
  {
    PrintIPv4Dotted(a);
    var t := CidrText(a, 32);
    forall c | c in t
      ensures IsDigit(c) || c == '.' || c == '/'
    {
    }
    assert t[0] in t && t[|t| - 1] in t;
  }

  lemma AllowedForTunnel(a: nat, role: string, sites: string)
    requires a < ADDRESSES
    ensures Tunnel(AllowedFor(a, role, sites)) == Some(a)
  {
    var t := CidrText(a, 32);
    CidrTextPlain(a);
    Cidr4RoundTrip(a, 32);
    TrimSpaceUnspaced(t);
    SplitWhole(t, ',');
    assert t + ", " + sites == t + [','] + ([' '] + sites);
    SplitHead(t, ',', [' '] + sites);
  }

  lemma {:induction false} FirstPartCounts(parts: seq<string>, other: OtherAddrs)
    requires parts != [] && AddrText(parts[0], other).Some?
    ensures AddrText(parts[0], other).value in PartTexts(parts, other)
  {
    if |parts| > 1 {
      FirstPartCounts(parts[..|parts| - 1], other);
    }
  }

  lemma {:induction false} TunnelIsUsed(peers: seq<Peer>, i: nat, network: nat, other: OtherAddrs)
    requires i < |peers| && peers[i].network == network && Tunnel(peers[i].allowedIPs).Some?
    ensures PrintIPv4(Tunnel(peers[i].allowedIPs).value) in UsedTexts(peers, network, other)
  {
    hide Split, ParseCIDR4, PartTexts, TrimSpace, PrintIPv4;
    var n := |peers| - 1;
    if i < n {
      TunnelIsUsed(peers[..n], i, network, other);
    } else {
      FirstPartCounts(Split(peers[i].allowedIPs, ','), other);
    }
  }

  /** The peer belongs to network n and its tunnel address is one that n hands out. */
  ghost predicate Housed(p: Peer, n: Network) {
    && p.network == n.id && IsValidPrivateCIDR(n.subnet)
    && Tunnel(p.allowedIPs).Some?
    && Base(n) + 2 <= Tunnel(p.allowedIPs).value && Tunnel(p.allowedIPs).value + 1 < End(n)
  }

  ghost predicate HasHome(p: Peer, ns: seq<Network>) {
    exists n :: n in ns && Housed(p, n)
  }

  ghost predicate PeersHoused(ps: seq<Peer>, ns: seq<Network>) {
    forall i :: 0 <= i < |ps| ==> HasHome(ps[i], ns)
  }

  ghost predicate TunnelsDiffer(ps: seq<Peer>) {
    forall i, j :: 0 <= i < j < |ps| && ps[i].network == ps[j].network ==>
      Tunnel(ps[i].allowedIPs) != Tunnel(ps[j].allowedIPs)
  }

  ghost predicate Orderly(s: State) {
    NetworksOk(s.networks, s.nextNetwork) && PeersHoused(s.peers, s.networks) && TunnelsDiffer(s.peers)
  }

  lemma {:induction false} KeepPeersFacts(ps: seq<Peer>, network: Option<nat>, id: Option<nat>)
    ensures forall p :: p in KeepPeers(ps, network, id) <==> p in ps && !DropsPeer(p, network, id)
    ensures TunnelsDiffer(ps) ==> TunnelsDiffer(KeepPeers(ps, network, id))
  {
    hide Tunnel, DropsPeer;
    if ps != [] {
      var k := |ps| - 1;
      KeepPeersFacts(ps[..k], network, id);
      assert ps == ps[..k] + [ps[k]];
      if TunnelsDiffer(ps) {
        assert TunnelsDiffer(ps[..k]);
        DifferOneMore(ps, KeepPeers(ps[..k], network, id));
      }
    }
  }

  lemma DifferOneMore(ps: seq<Peer>, kept: seq<Peer>)
    requires ps != [] && TunnelsDiffer(ps) && TunnelsDiffer(kept) && forall p :: p in kept ==> p in ps[..|ps| - 1]
    ensures TunnelsDiffer(kept + [ps[|ps| - 1]])
  {
    hide Tunnel;
    forall i | 0 <= i < |kept| && kept[i].network == ps[|ps| - 1].network
      ensures Tunnel(kept[i].allowedIPs) != Tunnel(ps[|ps| - 1].allowedIPs)
    {
      assert kept[i] in kept;
      var j :| 0 <= j < |ps| - 1 && ps[j] == kept[i];
    }
  }

  lemma HousedAfterDrop(ps: seq<Peer>, ns: seq<Network>, id: nat)
    requires PeersHoused(ps, ns)
    ensures PeersHoused(KeepPeers(ps, Some(id), None), KeepNetworks(ns, id))
  {
    hide KeepPeers, KeepNetworks, IsValidPrivateCIDR, Tunnel, Base, End;
    KeepPeersFacts(ps, Some(id), None);
    KeepNetworksFacts(ns, id);
    var kept := KeepPeers(ps, Some(id), None);
    forall i | 0 <= i < |kept|
      ensures HasHome(kept[i], KeepNetworks(ns, id))
    {
      assert kept[i] in kept;
      var j :| 0 <= j < |ps| && ps[j] == kept[i];
      assert HasHome(ps[j], ns);
      var n :| n in ns && Housed(ps[j], n);
      assert n in KeepNetworks(ns, id);
    }
  }

  lemma HousedSubset(ps: seq<Peer>, ns: seq<Network>, id: nat)
    requires PeersHoused(ps, ns)
    ensures PeersHoused(KeepPeers(ps, None, Some(id)), ns)
  {
    hide KeepPeers, HasHome;
    KeepPeersFacts(ps, None, Some(id));
    var kept := KeepPeers(ps, None, Some(id));
    forall i | 0 <= i < |kept|
      ensures HasHome(kept[i], ns)
    {
      assert kept[i] in kept;
      var j :| 0 <= j < |ps| && ps[j] == kept[i];
    }
  }

  lemma HousedMoreNetworks(ps: seq<Peer>, ns: seq<Network>, n: Network)
    requires PeersHoused(ps, ns)
    ensures PeersHoused(ps, ns + [n])
  {
    hide Housed;
    forall i | 0 <= i < |ps|
      ensures HasHome(ps[i], ns + [n])
    {
      assert HasHome(ps[i], ns);
      var m :| m in ns && Housed(ps[i], m);
      assert m in ns + [n];
    }
  }

  /** The address handed to a new peer is in its network and held by no other peer there. */
  lemma NewPeerFits(s: State, n: Network, x: nat, p: Peer, other: OtherAddrs)
    requires Orderly(s) && n in s.networks && IsValidPrivateCIDR(n.subnet) && x < ADDRESSES
    requires Pool.NextFree(End(n), Taken(s, n, Base(n), other), Base(n) + 2) == Some(x)
    requires p.network == n.id && Tunnel(p.allowedIPs) == Some(x)
    ensures Housed(p, n) && TunnelsDiffer(s.peers + [p])
  {
    hide Tunnel, IsValidPrivateCIDR, Base, End, UsedTexts, PrintIPv4, NetworksOk, PeersHoused;
    Pool.NextFreeIsLeast(End(n), Taken(s, n, Base(n), other), Base(n) + 2);
    forall i | 0 <= i < |s.peers| && s.peers[i].network == p.network
      ensures Tunnel(s.peers[i].allowedIPs) != Some(x)
    {
      if Tunnel(s.peers[i].allowedIPs) == Some(x) {
        TunnelIsUsed(s.peers, i, n.id, other);
      }
    }
  }

  /** What a successful pick gives: an address of the network that no peer there holds, below
      which every address is taken. */
  lemma PickedIsFree(s: State, network: nat, role: string, sites: string, other: OtherAddrs) returns (n: Network)
    requires Orderly(s) && Pick(s, network, role, sites, other).Some?
    ensures n in s.networks && n.id == network && IsValidPrivateCIDR(n.subnet)
    ensures Pool.NextFree(End(n), Taken(s, n, Base(n), other), Base(n) + 2) == Pick(s, network, role, sites, other)
    ensures var x := Pick(s, network, role, sites, other).value;
            && Base(n) + 2 <= x && x + 1 < End(n) && x !in Taken(s, n, Base(n), other)
            && forall i :: 0 <= i < |s.peers| && s.peers[i].network == network ==>
                 Tunnel(s.peers[i].allowedIPs) != Some(x)
  {
    hide ValidRole, Granted, IsValidPrivateCIDR, Tunnel, NetworksOk, PeersHoused, UsedTexts, PrintIPv4;
    n := FindNetwork(s.networks, network).value;
    NetworkIsValid(s, n);
    GrantedIs(s, n, other);
    var x := Pick(s, network, role, sites, other).value;
    Pool.NextFreeIsLeast(End(n), Taken(s, n, Base(n), other), Base(n) + 2);
    forall i | 0 <= i < |s.peers| && s.peers[i].network == network
      ensures Tunnel(s.peers[i].allowedIPs) != Some(x)
    {
      if Tunnel(s.peers[i].allowedIPs) == Some(x) {
        TunnelIsUsed(s.peers, i, n.id, other);
      }
    }
  }

  /** Exactly which address that is. */
  lemma PickExactly(s: State, network: nat, role: string, sites: string, other: OtherAddrs, n: Network, x: nat)
    requires Orderly(s) && n in s.networks && n.id == network
    ensures IsValidPrivateCIDR(n.subnet)
    ensures Pick(s, network, role, sites, other) == Some(x) <==>
            && (role == "client" || (role == "site-gateway" && ValidSites(sites, other)))
            && Base(n) + 2 <= x && x + 1 < End(n) && x !in Taken(s, n, Base(n), other)
            && forall z :: Base(n) + 2 <= z < x ==> z in Taken(s, n, Base(n), other)
  {
    hide ValidSites, Granted, IsValidPrivateCIDR, Taken, NetworksOk, PeersHoused, ParseCIDR4;
    NetworkIsValid(s, n);
    FoundById(s, n);
    GrantedIs(s, n, other);
    Parsed(n);
    Pool.NextFreeIsLeast(End(n), Taken(s, n, Base(n), other), Base(n) + 2);
  }

  lemma Parsed(n: Network)
    requires IsValidPrivateCIDR(n.subnet)
    ensures ParseCIDR4(n.subnet).Some?
  {
  }

  lemma FoundById(s: State, n: Network)
    requires Orderly(s) && n in s.networks
    ensures FindNetwork(s.networks, n.id) == Some(n)
  {
    hide Orderly;
    FindSome(s.networks, n);
    OneById(s, FindNetwork(s.networks, n.id).value, n);
  }

  lemma {:induction false} FindSome(ns: seq<Network>, n: Network)
    requires n in ns
    ensures FindNetwork(ns, n.id).Some?
  {
    if ns[0].id != n.id {
      FindSome(ns[1..], n);
    }
  }

  lemma CreatePeerKeeps(s: State, network: nat, role: string, sites: string, rest: bool, other: OtherAddrs)
    requires Orderly(s)
    ensures Orderly(CreatePeer(s, network, role, sites, rest, other))
  {
    hide Pick, NetworksOk, PeersHoused, TunnelsDiffer, AllowedFor;
    var s' := CreatePeer(s, network, role, sites, rest, other);
    if s' != s {
      var n := PickedIsFree(s, network, role, sites, other);
      var x := Pick(s, network, role, sites, other).value;
      var p := Peer(s.nextPeer, network, AllowedFor(x, role, sites));
      AllowedForTunnel(x, role, sites);
      NewPeerFits(s, n, x, p, other);
      HousedOneMore(s.peers, p, s.networks, n);
      assert s'.peers == s.peers + [p] && s'.networks == s.networks;
    }
  }

  lemma NetworkIsValid(s: State, n: Network)
    requires Orderly(s) && n in s.networks
    ensures IsValidPrivateCIDR(n.subnet)
  {
    hide IsValidPrivateCIDR, Apart;
  }

  lemma GrantedIs(s: State, n: Network, other: OtherAddrs)
    requires IsValidPrivateCIDR(n.subnet)
    ensures Granted(s, n, ParseCIDR4(n.subnet).value.0, ParseCIDR4(n.subnet).value.1, other)
         == Pool.NextFree(End(n), Taken(s, n, Base(n), other), Base(n) + 2)
  {
    hide ParseIPv4, Taken, Masked;
  }

  lemma HousedOneMore(ps: seq<Peer>, p: Peer, ns: seq<Network>, n: Network)
    requires PeersHoused(ps, ns) && n in ns && Housed(p, n)
    ensures PeersHoused(ps + [p], ns)
  {
    hide Housed;
  }

  lemma StepKeeps(s: State, op: Op, other: OtherAddrs)
    requires Orderly(s)
    ensures Orderly(Step(s, op, other))
  {
    hide NetworksOk, PeersHoused, TunnelsDiffer, CreatePeer, KeepPeers, KeepNetworks, IsValidPrivateCIDR, ParseCIDR4,
         SubnetTaken, PortTaken;
    match op
    case NewNetwork(subnet, port, rest) =>
      CreateNetworkKeeps(s, subnet, port, rest);
      var s' := CreateNetwork(s, subnet, port, rest);
      if s' != s {
        HousedMoreNetworks(s.peers, s.networks, s'.networks[|s.networks|]);
        assert s'.networks == s.networks + [s'.networks[|s.networks|]];
      }
    case DropNetwork(id, rest) =>
      KeepNetworksFacts(s.networks, id);
      KeepPeersFacts(s.peers, Some(id), None);
      HousedAfterDrop(s.peers, s.networks, id);
    case NewPeer(network, role, sites, rest) =>
      CreatePeerKeeps(s, network, role, sites, rest, other);
    case DropPeer(network, id, rest) =>
      KeepPeersFacts(s.peers, None, Some(id));
      HousedSubset(s.peers, s.networks, id);
  }

  lemma {:induction false} RunKeeps(ops: seq<Op>, other: OtherAddrs)
    ensures Orderly(Run(ops, other))
  {
    if ops != [] {
      RunKeeps(ops[..|ops| - 1], other);
      StepKeeps(Run(ops[..|ops| - 1], other), ops[|ops| - 1], other);
    }
  }

  // ----- The results -----

  /** In every run, any two networks have disjoint subnets and different ports, names and ids. */
  lemma NetworksStayApart(ops: seq<Op>, other: OtherAddrs, i: nat, j: nat, x: nat, y: nat)
    requires var ns := Run(ops, other).networks; i < j < |ns|
    ensures var ns := Run(ops, other).networks;
            && IsValidPrivateCIDR(ns[i].subnet) && IsValidPrivateCIDR(ns[j].subnet)
            && ns[i].iface != ns[j].iface && ns[i].port != ns[j].port && ns[i].id != ns[j].id
            && (Base(ns[i]) <= x < End(ns[i]) && Base(ns[j]) <= y < End(ns[j]) ==> x != y)
  {
    hide Run, IsValidPrivateCIDR;
    RunKeeps(ops, other);
    var ns := Run(ops, other).networks;
    assert Apart(ns[i], ns[j]);
    if Base(ns[i]) <= x < End(ns[i]) && Base(ns[j]) <= y < End(ns[j]) {
      ApartDisjoint(ns[i], ns[j], x, y);
    }
  }

  lemma SameOrApart(ns: seq<Network>, next: nat, m: Network, n: Network)
    requires NetworksOk(ns, next) && m in ns && n in ns
    ensures IsValidPrivateCIDR(m.subnet) && IsValidPrivateCIDR(n.subnet)
    ensures m == n || Apart(m, n) || Apart(n, m)
  {
    hide Apart, IsValidPrivateCIDR;
    var i :| 0 <= i < |ns| && ns[i] == m;
    var j :| 0 <= j < |ns| && ns[j] == n;
  }

  lemma OneById(s: State, m: Network, n: Network)
    requires Orderly(s) && m in s.networks && n in s.networks && m.id == n.id
    ensures m == n
  {
    hide IsValidPrivateCIDR;
    SameOrApart(s.networks, s.nextNetwork, m, n);
  }

  lemma AddressesApart(ns: seq<Network>, next: nat, m: Network, n: Network, x: nat, y: nat)
    requires NetworksOk(ns, next) && m in ns && n in ns && m != n
    requires IsValidPrivateCIDR(m.subnet) && IsValidPrivateCIDR(n.subnet)
    requires Base(m) <= x < End(m) && Base(n) <= y < End(n)
    ensures x != y
  {
    hide NetworksOk;
    SameOrApart(ns, next, m, n);
    if Apart(m, n) {
      ApartDisjoint(m, n, x, y);
    } else {
      ApartDisjoint(n, m, y, x);
    }
  }

  lemma OrderlyTunnels(s: State, i: nat, j: nat)
    requires Orderly(s) && i < j < |s.peers|
    ensures Tunnel(s.peers[i].allowedIPs).Some? && Tunnel(s.peers[i].allowedIPs) != Tunnel(s.peers[j].allowedIPs)
  {
    hide IsValidPrivateCIDR, Tunnel, Base, End;
    assert HasHome(s.peers[i], s.networks);
    var m :| m in s.networks && Housed(s.peers[i], m);
    assert HasHome(s.peers[j], s.networks);
    var n :| n in s.networks && Housed(s.peers[j], n);
    if m != n {
      var x, y := Tunnel(s.peers[i].allowedIPs).value, Tunnel(s.peers[j].allowedIPs).value;
      AddressesApart(s.networks, s.nextNetwork, m, n, x, y);
    }
  }

  /** In every run, no two peers of any networks hold the same tunnel address. */
  lemma TunnelsNeverShared(ops: seq<Op>, other: OtherAddrs, i: nat, j: nat)
    requires i < j < |Run(ops, other).peers|
    ensures var ps := Run(ops, other).peers;
            Tunnel(ps[i].allowedIPs).Some? && Tunnel(ps[i].allowedIPs) != Tunnel(ps[j].allowedIPs)
  {
    hide Run, Tunnel;
    RunKeeps(ops, other);
    OrderlyTunnels(Run(ops, other), i, j);
  }

  /** Nor does any peer hold a network's own, server or broadcast address. */
  lemma ReservedNeverHeld(ops: seq<Op>, other: OtherAddrs, i: nat, n: Network)
    requires i < |Run(ops, other).peers| && n in Run(ops, other).networks
    ensures IsValidPrivateCIDR(n.subnet)
    ensures var t := Tunnel(Run(ops, other).peers[i].allowedIPs);
            t.Some? && t.value != Base(n) && t.value != Base(n) + 1 && t.value != End(n) - 1
  {
    hide Run, IsValidPrivateCIDR, Tunnel, Base, End;
    RunKeeps(ops, other);
    var s := Run(ops, other);
    assert HasHome(s.peers[i], s.networks);
    var m :| m in s.networks && Housed(s.peers[i], m);
    SameOrApart(s.networks, s.nextNetwork, m, n);
    BaseFacts(n);
    if m != n {
      var t := Tunnel(s.peers[i].allowedIPs).value;
      AddressesApart(s.networks, s.nextNetwork, m, n, t, Base(n));
      AddressesApart(s.networks, s.nextNetwork, m, n, t, Base(n) + 1);
      AddressesApart(s.networks, s.nextNetwork, m, n, t, End(n) - 1);
    }
  }
}
