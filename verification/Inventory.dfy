/**
 Networks and peers as the API handlers create and delete them, each handler taken as one
 step, and what every run of them keeps: disjoint subnets and distinct tunnel addresses.
 */
module Inventory {
  import opened Wrappers
  import opened Text
  import opened Cidr
  import opened Blocks
  import Pool = IpPool

  datatype Network = Network(id: nat, iface: string, subnet: string, port: int)
  datatype Peer = Peer(id: nat, network: nat, allowedIPs: string)
  datatype State = State(networks: seq<Network>, peers: seq<Peer>, nextNetwork: nat, nextPeer: nat)

  const Empty := State([], [], 1, 1)

  /** The library's reading of text that is not a dotted-decimal CIDR: the address it
      finds there, printed. */
  type OtherAddrs = string -> Option<string>

  // ----- Interface names -----

  function IfaceName(i: nat): string {
    "wg" + Decimal(i)
  }

  lemma IfaceNameInjective(i: nat, j: nat)
    requires IfaceName(i) == IfaceName(j)
    ensures i == j
  {
    assert IfaceName(i)[2..] == Decimal(i) && IfaceName(j)[2..] == Decimal(j);
    DecimalInjective(i, j);
  }

  /** First index from i whose name is unused.  Each used name can stop the search once. */
  function NextIndex(used: set<string>, i: nat): nat
    decreases |used|
  {
    if IfaceName(i) !in used then i else NextIndex(used - {IfaceName(i)}, i + 1)
  }

  lemma {:induction false} NextIndexIsLeast(used: set<string>, i: nat)
    ensures i <= NextIndex(used, i) <= i + |used|
    ensures IfaceName(NextIndex(used, i)) !in used
    ensures forall j :: i <= j < NextIndex(used, i) ==> IfaceName(j) in used
    decreases |used|
  {
    if IfaceName(i) in used {
      var rest := used - {IfaceName(i)};
      NextIndexIsLeast(rest, i + 1);
      if IfaceName(NextIndex(rest, i + 1)) == IfaceName(i) {
        IfaceNameInjective(NextIndex(rest, i + 1), i);
      }
    }
  }

  function Ifaces(networks: seq<Network>): set<string> {
    set n | n in networks :: n.iface
  }

  lemma {:induction false} IfacesCount(networks: seq<Network>)
    ensures |Ifaces(networks)| <= |networks|
  {
    if networks != [] {
      var n := |networks| - 1;
      IfacesCount(networks[..n]);
      assert networks == networks[..n] + [networks[n]];
      assert Ifaces(networks) == Ifaces(networks[..n]) + {networks[n].iface};
    }
  }

  method CollectIfaces(networks: seq<Network>) returns (used: set<string>)
    ensures used == Ifaces(networks)
  {
    used := {};
    for i := 0 to |networks|
      invariant used == Ifaces(networks[..i])
    {
      assert networks[..i + 1] == networks[..i] + [networks[i]];
      assert Ifaces(networks[..i + 1]) == Ifaces(networks[..i]) + {networks[i].iface};
      used := used + {networks[i].iface};
    }
    assert networks[..|networks|] == networks;
  }

  /** "wg" and i in decimal, which no network has, while some network has each name before it. */
  ghost predicate LeastName(networks: seq<Network>, i: nat, name: string) {
    && name == "wg" + Decimal(i) && (forall n :: n in networks ==> n.iface != name)
    && forall j :: 0 <= j < i ==> HasName(networks, "wg" + Decimal(j))
  }

  predicate HasName(networks: seq<Network>, name: string) {
    exists n :: n in networks && n.iface == name
  }

  lemma NamedLeast(networks: seq<Network>, i: nat)
    requires IfaceName(i) !in Ifaces(networks) && forall j :: 0 <= j < i ==> IfaceName(j) in Ifaces(networks)
    ensures LeastName(networks, i, "wg" + Decimal(i))
  {
    hide Decimal;
    forall j | 0 <= j < i
      ensures HasName(networks, "wg" + Decimal(j))
    {
      assert IfaceName(j) in Ifaces(networks);
    }
  }

  /** The search has no bound in it; it stops within one try more than there are networks, on
      the least-numbered unused name. */
  method NextInterfaceName(networks: seq<Network>) returns (name: string)
    ensures name == IfaceName(NextIndex(Ifaces(networks), 0))
    ensures exists i: nat :: i <= |networks| && LeastName(networks, i, name)
  {
    var used := CollectIfaces(networks);
    NextIndexIsLeast(used, 0);
    IfacesCount(networks);
    var i := 0;
    ghost var rest := used;
    while "wg" + Decimal(i) in used
      invariant NextIndex(used, 0) == NextIndex(rest, i)
      invariant rest <= used && forall j :: j >= i && IfaceName(j) in used ==> IfaceName(j) in rest
      decreases |rest|
    {
      forall j | j > i && IfaceName(j) in used
        ensures IfaceName(j) in rest - {IfaceName(i)}
      {
        if IfaceName(j) == IfaceName(i) {
          IfaceNameInjective(j, i);
        }
      }
      rest := rest - {IfaceName(i)};
      i := i + 1;
    }
    name := "wg" + Decimal(i);
    NamedLeast(networks, i);
  }

  // ----- Creating a network -----

  predicate Conflicts(n: Network, a: nat, ones: nat)
    requires ones <= 32
  {
    match ParseCIDR4(n.subnet)
    case None => false
    case Some((b, p)) => Overlaps(Masked(a, ones), ones, Masked(b, p), p)
  }

  predicate SubnetTaken(networks: seq<Network>, a: nat, ones: nat)
    requires ones <= 32
  {
    exists n :: n in networks && Conflicts(n, a, ones)
  }

  predicate PortTaken(networks: seq<Network>, port: int) {
    exists n :: n in networks && n.port == port
  }

  method CheckSubnet(networks: seq<Network>, a: nat, ones: nat) returns (taken: bool)
    requires ones <= 32
    ensures taken == SubnetTaken(networks, a, ones)
    ensures taken <==> !Disjoint(networks, a, ones)
  {
    hide Disjoint, Conflicts;
    TakenExactly(networks, a, ones);
    for i := 0 to |networks|
      invariant forall j :: 0 <= j < i ==> !Conflicts(networks[j], a, ones)
    {
      if Conflicts(networks[i], a, ones) {
        return true;
      }
    }
    return false;
  }

  /** What the loops refuse: an address in common with a network whose subnet reads as IPv4 ... */
  ghost predicate Disjoint(networks: seq<Network>, a: nat, ones: nat)
    requires ones <= 32
  {
    forall n :: n in networks && ParseCIDR4(n.subnet).Some? ==>
      var (b, p) := ParseCIDR4(n.subnet).value;
      !Shares(a, ones, b, p)
  }

  lemma ConflictsExactly(n: Network, a: nat, ones: nat)
    requires ones <= 32
    ensures Conflicts(n, a, ones) <==>
            && ParseCIDR4(n.subnet).Some?
            && var (b, p) := ParseCIDR4(n.subnet).value;
               Shares(a, ones, b, p)
  {
    hide ParseCIDR4, Shares, Overlaps, Masked;
    if ParseCIDR4(n.subnet).Some? {
      var (b, p) := ParseCIDR4(n.subnet).value;
      MaskedOverlap(a, ones, b, p);
    }
  }

  lemma TakenExactly(networks: seq<Network>, a: nat, ones: nat)
    requires ones <= 32
    ensures SubnetTaken(networks, a, ones) <==> !Disjoint(networks, a, ones)
  {
    hide ParseCIDR4, Shares, Conflicts;
    forall n | n in networks
      ensures Conflicts(n, a, ones) <==>
              && ParseCIDR4(n.subnet).Some?
              && var (b, p) := ParseCIDR4(n.subnet).value;
                 Shares(a, ones, b, p)
    {
      ConflictsExactly(n, a, ones);
    }
  }

  method CheckPort(networks: seq<Network>, port: int) returns (taken: bool)
    ensures taken == PortTaken(networks, port)
    ensures !taken <==> forall n :: n in networks ==> n.port != port
  {
    for i := 0 to |networks|
      invariant forall j :: 0 <= j < i ==> networks[j].port != port
    {
      if networks[i].port == port {
        return true;
      }
    }
    return false;
  }

  /** `rest` says that the other fields are valid and that every later step succeeds. */
  function CreateNetwork(s: State, subnet: string, port: int, rest: bool): State {
    if !rest || !IsValidPrivateCIDR(subnet) || !(1024 <= port <= 65535) then s
    else
      var p := ParseCIDR4(subnet).value;
      if SubnetTaken(s.networks, p.0, p.1) || PortTaken(s.networks, port) then s
      else
        var n := Network(s.nextNetwork, IfaceName(NextIndex(Ifaces(s.networks), 0)), subnet, port);
        s.(networks := s.networks + [n], nextNetwork := s.nextNetwork + 1)
  }

  // ----- Deleting -----

  function KeepNetworks(ns: seq<Network>, id: nat): seq<Network> {
    if ns == [] then []
    else KeepNetworks(ns[..|ns| - 1], id) + (if ns[|ns| - 1].id == id then [] else [ns[|ns| - 1]])
  }

  predicate DropsPeer(p: Peer, network: Option<nat>, id: Option<nat>) {
    (network.Some? && p.network == network.value) || (id.Some? && p.id == id.value)
  }

  function KeepPeers(ps: seq<Peer>, network: Option<nat>, id: Option<nat>): seq<Peer> {
    if ps == [] then []
    else KeepPeers(ps[..|ps| - 1], network, id) + (if DropsPeer(ps[|ps| - 1], network, id) then [] else [ps[|ps| - 1]])
  }

  /** The peers of a network go with it. */
  function DeleteNetwork(s: State, id: nat, rest: bool): State {
    if !rest || FindNetwork(s.networks, id).None? then s
    else s.(networks := KeepNetworks(s.networks, id), peers := KeepPeers(s.peers, Some(id), None))
  }

  function DeletePeer(s: State, network: nat, id: nat, rest: bool): State {
    if && rest && FindNetwork(s.networks, network).Some?
       && (exists p :: p in s.peers && p.id == id && p.network == network)
    then s.(peers := KeepPeers(s.peers, None, Some(id))) else s
  }

  // ----- Creating a peer -----

  /** The address read from one part of an AllowedIPs column, as text. */
  function AddrText(part: string, other: OtherAddrs): Option<string> {
    match ParseCIDR4(TrimSpace(part))
    case Some((a, _)) => Some(PrintIPv4(a))
    case None => other(TrimSpace(part))
  }

  function PartTexts(parts: seq<string>, other: OtherAddrs): set<string> {
    if parts == [] then {}
    else
      var t := AddrText(parts[|parts| - 1], other);
      PartTexts(parts[..|parts| - 1], other) + (if t.Some? then {t.value} else {})
  }

  function UsedTexts(peers: seq<Peer>, network: nat, other: OtherAddrs): set<string> {
    if peers == [] then {}
    else
      var p := peers[|peers| - 1];
      UsedTexts(peers[..|peers| - 1], network, other)
        + (if p.network == network then PartTexts(Split(p.allowedIPs, ','), other) else {})
  }

  /** The address is kept as written, host bits included. */
  ghost predicate Names(part: string, text: string, other: OtherAddrs) {
    || (exists a: nat, ones: nat :: ParseCIDR4(TrimSpace(part)) == Some((a, ones)) && text == PrintIPv4(a))
    || (ParseCIDR4(TrimSpace(part)).None? && other(TrimSpace(part)) == Some(text))
  }

  lemma {:induction false} PartsExactly(parts: seq<string>, text: string, other: OtherAddrs)
    ensures text in PartTexts(parts, other) <==> exists part :: part in parts && Names(part, text, other)
  {
    hide TrimSpace, PrintIPv4, ParseCIDR4;
    if parts != [] {
      var n := |parts| - 1;
      PartsExactly(parts[..n], text, other);
      assert Names(parts[n], text, other) <==> AddrText(parts[n], other) == Some(text) by {
        if ParseCIDR4(TrimSpace(parts[n])).Some? {
          var (a, ones) := ParseCIDR4(TrimSpace(parts[n])).value;
        }
      }
      hide Names;
      assert parts == parts[..n] + [parts[n]];
      assert forall part :: part in parts <==> part in parts[..n] || part == parts[n];
    }
  }

  /** The addresses collected are those of the pieces of the lists of the network's peers. */
  lemma {:induction false} UsedExactly(peers: seq<Peer>, network: nat, text: string, other: OtherAddrs)
    ensures text in UsedTexts(peers, network, other) <==>
            exists p, part :: p in peers && p.network == network && part in Split(p.allowedIPs, ',')
                              && Names(part, text, other)
  {
    hide Split, Names, PartTexts;
    if peers != [] {
      var n := |peers| - 1;
      UsedExactly(peers[..n], network, text, other);
      PartsExactly(Split(peers[n].allowedIPs, ','), text, other);
      assert peers == peers[..n] + [peers[n]];
      assert forall p :: p in peers <==> p in peers[..n] || p == peers[n];
    }
  }

  method CollectParts(parts: seq<string>, other: OtherAddrs) returns (texts: set<string>)
    ensures texts == PartTexts(parts, other)
  {
    texts := {};
    for i := 0 to |parts|
      invariant texts == PartTexts(parts[..i], other)
    {
      assert parts[..i + 1][..i] == parts[..i];
      var part := TrimSpace(parts[i]);
      match ParseCIDR4(part) {
        case Some((a, _)) =>
          texts := texts + {PrintIPv4(a)};
        case None =>
          var t := other(part);
          if t.Some? {
            texts := texts + {t.value};
          }
      }
    }
    assert parts[..|parts|] == parts;
  }

  lemma NextPeerTexts(peers: seq<Peer>, i: nat, network: nat, other: OtherAddrs)
    requires i < |peers|
    ensures UsedTexts(peers[..i + 1], network, other) == UsedTexts(peers[..i], network, other)
              + (if peers[i].network == network then PartTexts(Split(peers[i].allowedIPs, ','), other) else {})
  {
    assert peers[..i + 1][..i] == peers[..i];
  }

  /** Every address that appears in the AllowedIPs of the network's peers. */
  method CollectUsed(peers: seq<Peer>, network: nat, other: OtherAddrs) returns (texts: set<string>)
    ensures texts == UsedTexts(peers, network, other)
  {
    texts := {};
    for i := 0 to |peers|
      invariant texts == UsedTexts(peers[..i], network, other)
    {
      NextPeerTexts(peers, i, network, other);
      if peers[i].network == network {
        var more := CollectParts(Split(peers[i].allowedIPs, ','), other);
        texts := texts + more;
      }
    }
    assert peers[..|peers|] == peers;
  }

  predicate ValidSites(sites: string, other: OtherAddrs) {
    sites == "" || forall i :: 0 <= i < |Split(sites, ',')| ==> AddrText(Split(sites, ',')[i], other).Some?
  }

  predicate ValidRole(role: string, sites: string, other: OtherAddrs) {
    role == "client" || (role == "site-gateway" && ValidSites(sites, other))
  }

  /** The accepted site lists: nothing, or pieces joined by commas, each of them a CIDR once
      white space around it is dropped. */
  lemma SitesExactly(sites: string, other: OtherAddrs)
    ensures ValidSites(sites, other) <==>
            || sites == ""
            || exists parts ::
                 && parts != [] && Join(parts, ',') == sites
                 && forall i :: 0 <= i < |parts| ==>
                      ',' !in parts[i] && (ParseCIDR4(TrimSpace(parts[i])).Some? || other(TrimSpace(parts[i])).Some?)
  {
    hide Split, Join, TrimSpace, ParseCIDR4;
    SplitJoins(sites, ',');
    if ValidSites(sites, other) && sites != "" {
      var parts := Split(sites, ',');
      assert forall i :: 0 <= i < |parts| ==> AddrText(parts[i], other).Some?;
    }
    if parts :| && parts != [] && Join(parts, ',') == sites
                && forall i :: 0 <= i < |parts| ==>
                     && ',' !in parts[i]
                     && (ParseCIDR4(TrimSpace(parts[i])).Some? || other(TrimSpace(parts[i])).Some?)
    {
      SplitExactly(sites, ',', parts);
    }
  }

  lemma AddrReads(part: string, other: OtherAddrs)
    ensures AddrText(part, other).Some? <==> ParseCIDR4(TrimSpace(part)).Some? || other(TrimSpace(part)).Some?
  {
    hide ParseCIDR4, TrimSpace;
  }

  /** The loop over the pieces, which stops at the first that does not parse. */
  method CheckSites(sites: string, other: OtherAddrs) returns (ok: bool)
    ensures ok == ValidSites(sites, other)
  {
    hide Split, ParseCIDR4, TrimSpace, AddrText;
    if sites == "" {
      return true;
    }
    var parts := Split(sites, ',');
    for i := 0 to |parts|
      invariant forall j :: 0 <= j < i ==> AddrText(parts[j], other).Some?
    {
      var p := TrimSpace(parts[i]);
      AddrReads(parts[i], other);
      if ParseCIDR4(p).None? && other(p).None? {
        return false;
      }
    }
    return true;
  }

  /** The tunnel address first, then a gateway's site networks. */
  function AllowedFor(a: nat, role: string, sites: string): string
    requires a < ADDRESSES
  {
    if role == "site-gateway" && sites != "" then CidrText(a, 32) + ", " + sites else CidrText(a, 32)
  }

  function FindNetwork(ns: seq<Network>, id: nat): (r: Option<Network>)
    ensures r.Some? ==> r.value in ns && r.value.id == id
  {
    if ns == [] then None
    else if ns[0].id == id then Some(ns[0])
    else FindNetwork(ns[1..], id)
  }

  function Taken(s: State, n: Network, base: nat, other: OtherAddrs): set<nat> {
    Pool.TakenOf(UsedTexts(s.peers, n.id, other)) + {base, (base + 1) % ADDRESSES}
  }

  /** The address the allocator grants in a subnet, given the network's peers. */
  function Granted(s: State, n: Network, a: nat, ones: nat, other: OtherAddrs): (r: Option<nat>)
    requires a < ADDRESSES && ones <= 32
    ensures r.Some? ==> r.value < ADDRESSES
  {
    GrantInRange(a, ones, Taken(s, n, Masked(a, ones), other));
    Pool.Grant(Masked(a, ones), ones, Taken(s, n, Masked(a, ones), other))
  }

  lemma GrantInRange(a: nat, ones: nat, taken: set<nat>)
    requires a < ADDRESSES && ones <= 32
    ensures var r := Pool.Grant(Masked(a, ones), ones, taken); r.Some? ==> r.value < ADDRESSES
  {
    BlockFits(Masked(a, ones), ones);
    Pool.NextFreeIsLeast(Masked(a, ones) + Size(ones), taken, Masked(a, ones) + 2);
    Pool.NextFreeIsLeast(ADDRESSES, taken, 2);
  }

  /** The address a create is granted, if the request and the network allow one. */
  function Pick(s: State, network: nat, role: string, sites: string, other: OtherAddrs): (r: Option<nat>)
    ensures r.Some? ==> r.value < ADDRESSES
  {
    if !ValidRole(role, sites, other) then None
    else
      match FindNetwork(s.networks, network)
      case None => None
      case Some(n) =>
        match ParseCIDR4(n.subnet)
        case None => None
        case Some((a, ones)) => Granted(s, n, a, ones, other)
  }

  function AddRow(s: State, network: nat, allowedIPs: string): State {
    s.(peers := s.peers + [Peer(s.nextPeer, network, allowedIPs)], nextPeer := s.nextPeer + 1)
  }

  function CreatePeer(s: State, network: nat, role: string, sites: string, rest: bool, other: OtherAddrs): State {
    var x := Pick(s, network, role, sites, other);
    if rest && x.Some? then AddRow(s, network, AllowedFor(x.value, role, sites)) else s
  }

  // ----- Runs -----

  datatype Op =
    | NewNetwork(subnet: string, port: int, rest: bool)
    | DropNetwork(id: nat, rest: bool)
    | NewPeer(network: nat, role: string, sites: string, rest: bool)
    | DropPeer(network: nat, id: nat, rest: bool)

  function Step(s: State, op: Op, other: OtherAddrs): State {
    match op
    case NewNetwork(subnet, port, rest) => CreateNetwork(s, subnet, port, rest)
    case DropNetwork(id, rest) => DeleteNetwork(s, id, rest)
    case NewPeer(network, role, sites, rest) => CreatePeer(s, network, role, sites, rest, other)
    case DropPeer(network, id, rest) => DeletePeer(s, network, id, rest)
  }

  function Run(ops: seq<Op>, other: OtherAddrs): State {
    if ops == [] then Empty else Step(Run(ops[..|ops| - 1], other), ops[|ops| - 1], other)
  }
}
