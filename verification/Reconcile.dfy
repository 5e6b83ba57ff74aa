/** The reconciler: makes the kernel agree with the database, one call at a time. */
module Reconcile {
  import opened Wrappers
  import Text
  import opened Cidr
  import opened Collections
  import opened Kernel
  import opened PeerSync
  import Bytes = IpBytes

  datatype Network = Network(id: int, iface: string, subnet: string, port: int, privateKey: string, enabled: bool)

  datatype Database = Database(networks: seq<Network>, peers: map<int, seq<Peer>>)

  function PeersOf(db: Database, id: int): seq<Peer> {
    if id in db.peers then db.peers[id] else []
  }

  // ----- Preconditions on the database -----

  /** The networks table has a unique index on the interface column. */
  ghost predicate DistinctIfaces(db: Database) {
    forall i, j :: 0 <= i < j < |db.networks| ==> db.networks[i].iface != db.networks[j].iface
  }

  ghost predicate NetworkOk(db: Database, n: Network, other: OtherNets) {
    n.enabled ==> ParseNet(n.subnet, other).Some? && WellFormed(PeersOf(db, n.id), other)
  }

  ghost predicate DatabaseOk(db: Database, other: OtherNets) {
    forall n :: n in db.networks ==> NetworkOk(db, n, other)
  }

  ghost predicate Managed(db: Database, name: string) {
    exists n :: n in db.networks && n.iface == name
  }

  // ----- Outcomes -----

  ghost predicate NetworkDone(db: Database, n: Network, links: map<string, Link>, other: OtherNets) {
    if n.enabled
    then n.iface in links && Agrees(links[n.iface].peers, PeersOf(db, n.id), other)
    else n.iface !in links
  }

  /** The kernel is what the database says. */
  ghost predicate InStep(db: Database, links: map<string, Link>, other: OtherNets) {
    forall n :: n in db.networks ==> NetworkDone(db, n, links, other)
  }

  /** An enabled network's interface stays as it was set up, with its enabled peers and
      their blocks. */
  ghost predicate NetworkSafe(db: Database, n: Network, before: map<string, Link>, after: map<string, Link>,
                              other: OtherNets)
  {
    n.enabled && n.iface in before ==>
      && n.iface in after
      && after[n.iface] == before[n.iface].(peers := after[n.iface].peers)
      && (DistinctKeys(PeersOf(db, n.id)) ==>
            Keeps(before[n.iface].peers, after[n.iface].peers, PeersOf(db, n.id), other))
  }

  /** The server address of a subnet, with its prefix length. */
  function ServerAddress(subnet: IPNet, first6: string -> string): string {
    match subnet
    case V4(base, ones) => CidrText((base + 1) % ADDRESSES, ones)
    case V6(text) => first6(text)
  }

  /** The one address on the link is, read back, the first usable address of the subnet as the
      bytes give it, with the length of the subnet. */
  ghost predicate HoldsFirst(link: Link, a: nat, ones: nat)
    requires a < ADDRESSES && ones <= 32
  {
    exists text :: link.addrs == {text} &&
      ParseCIDR4(text) == Some((Bytes.Value(Bytes.Next(Bytes.MaskIP(Bytes.Bytes4(a), ones))), ones))
  }

  lemma ServerAddressReads(subnet: string, other: OtherNets, first6: string -> string)
    requires ParseCIDR4(subnet).Some?
    ensures var (a, ones) := ParseCIDR4(subnet).value;
            && ParseNet(subnet, other).Some?
            && ParseCIDR4(ServerAddress(ParseNet(subnet, other).value, first6))
               == Some((Bytes.Value(Bytes.Next(Bytes.MaskIP(Bytes.Bytes4(a), ones))), ones))
  {
    hide ParseCIDR4, Bytes.MaskIP, Bytes.Value, Bytes.Bytes4, Bytes.Next, Bytes.To4, CidrText;
    var (a, ones) := ParseCIDR4(subnet).value;
    Bytes.FirstUsable4(a, ones);
    Cidr4RoundTrip((Masked(a, ones) + 1) % ADDRESSES, ones);
  }

  /** Every link set up for a readable IPv4 subnet holds that address and nothing else. */
  lemma NewLinkHoldsFirst(n: Network, other: OtherNets, first6: string -> string)
    requires ParseCIDR4(n.subnet).Some?
    ensures var (a, ones) := ParseCIDR4(n.subnet).value;
            ParseNet(n.subnet, other).Some? && HoldsFirst(NewLink(n, ParseNet(n.subnet, other).value, first6), a, ones)
  {
    hide ParseCIDR4, ServerAddress, ParseNet;
    ServerAddressReads(n.subnet, other, first6);
    var text := ServerAddress(ParseNet(n.subnet, other).value, first6);
    assert NewLink(n, ParseNet(n.subnet, other).value, first6).addrs == {text};
  }

  function NewLink(n: Network, subnet: IPNet, first6: string -> string): Link {
    Link(map[], {ServerAddress(subnet, first6)}, n.port, n.privateKey, true)
  }

  /** An enabled network that had no interface has one, set up as the database says. */
  ghost predicate NetworkMade(n: Network, before: map<string, Link>, after: map<string, Link>, other: OtherNets,
                              first6: string -> string)
  {
    n.enabled && n.iface !in before && ParseNet(n.subnet, other).Some? ==>
      && n.iface in after
      && after[n.iface] == NewLink(n, ParseNet(n.subnet, other).value, first6).(peers := after[n.iface].peers)
  }

  ghost predicate SameAt(before: map<string, Link>, after: map<string, Link>, name: string) {
    (name in before <==> name in after) && (name in before && name in after ==> before[name] == after[name])
  }

  function PeerCalls(iface: string, cs: seq<PeerCfg>): seq<Call> {
    if cs == [] then [] else PeerCalls(iface, cs[..|cs| - 1]) + [SetPeers(iface, [cs[|cs| - 1]])]
  }

  ghost predicate AllOf(mask: seq<bool>) {
    forall i :: 0 <= i < |mask| ==> mask[i]
  }

  ghost predicate ValidSnapshot(d: seq<PeerInfo>) {
    forall i, b :: 0 <= i < |d| && b in d[i].allowed ==> ValidNet(b)
  }

  /** Removals only, and for exactly the peers of the device. */
  ghost predicate RemovesAll(cs: seq<PeerCfg>, ps: Peers) {
    && (forall x :: 0 <= x < |cs| ==> cs[x] == Removal(cs[x].key) && cs[x].key in ps)
    && (forall k :: k in ps ==> exists x :: 0 <= x < |cs| && cs[x].key == k)
  }

  /** The calls that take a whole interface away: its peers if it has any, down, delete. */
  ghost predicate TearDown(calls: seq<Call>, name: string, ps: Peers) {
    exists cs :: RemovesAll(cs, ps) &&
      calls == (if |cs| > 0 then [SetPeers(name, cs)] else []) + [SetLinkDown(name), DeleteLink(name)]
  }

  lemma OnlyAt(before: map<string, Link>, after: map<string, Link>, name: string)
    requires after - {name} == before - {name}
    ensures forall m :: m != name ==> SameAt(before, after, m)
  {
    forall m | m != name
      ensures SameAt(before, after, m)
    {
      var b, a := before - {name}, after - {name};
      assert (m in before <==> m in b) && (m in after <==> m in a);
      assert m in b ==> b[m] == before[m] && a[m] == after[m];
    }
  }

  lemma TornDown(log: seq<Call>, name: string, cs: seq<PeerCfg>, ps: Peers)
    requires RemovesAll(cs, ps)
    ensures var first := if |cs| > 0 then log + [SetPeers(name, cs)] else log;
            var after := first + [SetLinkDown(name)] + [DeleteLink(name)];
            |log| <= |after| && after[..|log|] == log && TearDown(after[|log|..], name, ps)
  {
    var calls := (if |cs| > 0 then [SetPeers(name, cs)] else []) + [SetLinkDown(name), DeleteLink(name)];
    var first := if |cs| > 0 then log + [SetPeers(name, cs)] else log;
    var after := first + [SetLinkDown(name)] + [DeleteLink(name)];
    assert after == log + calls;
    assert TearDown(calls, name, ps);
  }

  /** Part of a plan has been issued to one interface, with the effect `mask` records. */
  ghost predicate Issued(before: map<string, Link>, after: map<string, Link>, iface: string, cs: seq<PeerCfg>,
                         mask: seq<bool>)
  {
    && |mask| == |cs| && iface in before
    && after == before[iface := before[iface].(peers := ApplySome(before[iface].peers, cs, mask))]
  }

  lemma IssuedNone(links: map<string, Link>, iface: string)
    requires iface in links
    ensures Issued(links, links, iface, [], [])
  {
    assert links[iface := links[iface].(peers := ApplySome(links[iface].peers, [], []))] == links;
  }

  lemma IssuedOne(before: map<string, Link>, mid: map<string, Link>, after: map<string, Link>, iface: string,
                  cs: seq<PeerCfg>, mask: seq<bool>, c: PeerCfg, bit: bool)
    requires Issued(before, mid, iface, cs, mask) && iface in mid
    requires after == mid[iface := mid[iface].(peers :=
               if bit then ApplyPeer(mid[iface].peers, c) else mid[iface].peers)]
    ensures Issued(before, after, iface, cs + [c], mask + [bit])
  {
    assert (cs + [c])[..|cs|] == cs && (mask + [bit])[..|cs|] == mask;
  }

  class Manager {
    const host: Host
    const other: OtherNets
    const first6: string -> string  // first usable address of an IPv6 subnet, as text

    constructor (host: Host, other: OtherNets, first6: string -> string)
      ensures this.host == host && this.other == other && this.first6 == first6
    {
      this.host, this.other, this.first6 := host, other, first6;
    }

    ghost predicate NoFaults() {
      forall t: nat :: host.fault(t).None?
    }

    /** Address, device settings and up, in that order, on a link just created. */
    method BringUp(n: Network, addr: string) returns (ok: bool)
      requires n.iface in host.links
      modifies host
      ensures n.iface in host.links && host.links - {n.iface} == old(host.links) - {n.iface}
      ensures ok ==>
                var was := old(host.links)[n.iface];
                host.links[n.iface] == Link(was.peers, was.addrs + {addr}, n.port, n.privateKey, true)
      ensures NoFaults() ==> ok
    {
      ok := host.AssignAddress(n.iface, addr);
      if !ok { return; }
      ok := host.ConfigureDevice(n.iface, n.privateKey, n.port);
      if !ok { return; }
      ok := host.SetLink(n.iface, true);
    }

    /** Reads the subnet and prints its first usable address. */
    method ServerAddressOf(subnet: string) returns (addr: Option<string>)
      ensures addr.Some? <==> ParseNet(subnet, other).Some?
      ensures addr.Some? ==> addr.value == ServerAddress(ParseNet(subnet, other).value, first6)
      ensures ParseCIDR4(subnet).Some? ==>
                var (a, ones) := ParseCIDR4(subnet).value;
                && addr.Some?
                && ParseCIDR4(addr.value)
                   == Some((Bytes.Value(Bytes.Next(Bytes.MaskIP(Bytes.Bytes4(a), ones))), ones))
    {
      hide ParseCIDR4, Bytes.MaskIP, Bytes.Value, Bytes.Bytes4, Bytes.Next, Bytes.To4, CidrText, PrintIPv4;
      var parsed := ParseCIDR4(subnet);
      if parsed.Some? {
        var (a, ones) := parsed.value;
        Bytes.Bytes4Value(a);
        Bytes.FirstUsable4(a, ones);
        Cidr4RoundTrip((Masked(a, ones) + 1) % ADDRESSES, ones);
        var ip := Bytes.FirstUsableIP(Bytes.Bytes4(a), ones);
        CidrWords(Bytes.Value(ip), ones);
        return Some(PrintIPv4(Bytes.Value(ip)) + "/" + Text.Decimal(ones));
      }
      match other(subnet) {
        case None => return None;
        case Some(V4(base, ones)) => return Some(CidrText((base + 1) % ADDRESSES, ones));
        case Some(V6(text)) => return Some(first6(text));
      }
    }

    /** All four steps take effect, or the link is deleted again.  Only a failing clean-up
        delete can leave a link behind. */
    method CreateInterface(n: Network) returns (ok: bool)
      modifies host
      ensures ok ==> n.iface !in old(host.links) && ParseNet(n.subnet, other).Some?
      ensures ok ==> host.links == old(host.links)[n.iface :=
                NewLink(n, ParseNet(n.subnet, other).value, first6)]
      ensures ok && ParseCIDR4(n.subnet).Some? ==>
                var (a, ones) := ParseCIDR4(n.subnet).value;
                HoldsFirst(host.links[n.iface], a, ones)
      ensures !ok && host.links != old(host.links) ==>
                && n.iface !in old(host.links) && host.links - {n.iface} == old(host.links)
                && host.log != [] && host.log[|host.log| - 1] == DeleteLink(n.iface)
                && host.tick > 0 && host.fault(host.tick - 1).Some?
      ensures NoFaults() && n.iface !in old(host.links) && ParseNet(n.subnet, other).Some? ==> ok
    {
      hide ParseNet, ServerAddress, ParseCIDR4, Bytes.MaskIP, Bytes.Value, Bytes.Bytes4, Bytes.Next;
      ok := host.CreateWireGuardLink(n.iface);
      if !ok { return; }
      assert host.links - {n.iface} == old(host.links);
      var addr := ServerAddressOf(n.subnet);
      if addr.None? {
        ok := false;
      } else {
        ok := BringUp(n, addr.value);
      }
      if !ok {
        var _ := host.RemoveLink(n.iface);
      } else {
        assert {} + {addr.value} == {addr.value};
        assert host.links == old(host.links)[n.iface := host.links[n.iface]];
      }
    }

    /** Peers first, then the link; a failure part-way leaves the rest of the steps undone. */
    method DeleteInterface(name: string) returns (ok: bool)
      modifies host
      ensures forall m :: m != name ==> SameAt(old(host.links), host.links, m)
      ensures ok ==> name in old(host.links) && name !in host.links
      ensures name !in old(host.links) ==> name !in host.links
      ensures ok ==> |old(host.log)| <= |host.log| && host.log[..|old(host.log)|] == old(host.log)
      ensures ok ==> TearDown(host.log[|old(host.log)|..], name, old(host.links)[name].peers)
      ensures NoFaults() && name in old(host.links) ==> ok
    {
      hide SameAt, Describes, RemovesAll, TearDown;
      var dev := host.Device(name);
      if dev.None? {
        ok := false;
      } else {
        var removals := Removals(dev.value.peers, host.links[name].peers);
        ok := DropPeersAndLink(name, removals);
        TornDown(old(host.log), name, removals, old(host.links)[name].peers);
      }
      OnlyAt(old(host.links), host.links, name);
    }

    method DropPeersAndLink(name: string, removals: seq<PeerCfg>) returns (ok: bool)
      requires name in host.links
      modifies host
      ensures host.links - {name} == old(host.links) - {name}
      ensures ok ==>
                var first := if |removals| > 0 then old(host.log) + [SetPeers(name, removals)] else old(host.log);
                name !in host.links && host.log == first + [SetLinkDown(name)] + [DeleteLink(name)]
      ensures NoFaults() ==> ok
    {
      hide ApplyPeers;
      if |removals| > 0 {
        ok := host.ConfigurePeers(name, removals);
        if !ok { return; }
      }
      ok := host.SetLink(name, false);
      if !ok { return; }
      ok := host.RemoveLink(name);
    }

    method Removals(d: seq<PeerInfo>, ghost ps: Peers) returns (cs: seq<PeerCfg>)
      requires Describes(d, ps)
      ensures RemovesAll(cs, ps)
    {
      cs := [];
      for i := 0 to |d|
        invariant |cs| == i && forall x :: 0 <= x < i ==> cs[x] == Removal(d[x].key)
      {
        cs := cs + [PeerCfg(d[i].key, true, false, false, [])];
      }
      forall k | k in ps
        ensures exists x :: 0 <= x < |cs| && cs[x].key == k
      {
        var i :| 0 <= i < |d| && d[i].key == k;
        assert cs[i].key == k;
      }
    }

    /** One ConfigureDevice call for one peer, as addPeer, updatePeerLocked and
        removePeerLocked make it; errors are only logged. */
    method IssueOne(iface: string, c: PeerCfg) returns (ghost bit: bool)
      requires iface in host.links
      modifies host
      ensures host.log == old(host.log) + [SetPeers(iface, [c])]
      ensures host.links == old(host.links)[iface := old(host.links)[iface].(peers :=
                if bit then ApplyPeer(old(host.links)[iface].peers, c) else old(host.links)[iface].peers)]
      ensures NoFaults() ==> bit
    {
      bit := host.Reach(host.tick, 1) == 1;
      var _ := host.ConfigurePeers(iface, [c]);
      assert [c][..1] == [c] && [c][..0] == [];
    }

    /** Adds one peer; AllowedIPs that do not parse fail before any call. */
    method AddPeer(iface: string, p: Peer) returns (ok: bool)
      modifies host
      ensures forall m :: m != iface ==> SameAt(old(host.links), host.links, m)
      ensures iface in host.links <==> iface in old(host.links)
      ensures ParseList(p.allowedIPs, other).None? ==> !ok && host.links == old(host.links) && host.log == old(host.log)
      ensures ok ==> iface in old(host.links) && ParseList(p.allowedIPs, other).Some?
      ensures ok ==> host.links[iface] == old(host.links)[iface].(peers :=
                ApplyPeer(old(host.links)[iface].peers, Setting(p.key, false, ParseList(p.allowedIPs, other).value)))
      ensures NoFaults() && iface in old(host.links) && ParseList(p.allowedIPs, other).Some? ==> ok
    {
      hide ApplyPeer, ParseList;
      var ns := ParseAllowedIPs(p.allowedIPs, other);
      if ns.None? {
        return false;
      }
      var c := PeerCfg(p.key, false, false, true, ns.value);
      ok := host.ConfigurePeers(iface, [c]);
      OneCall(old(host.links), iface, c);
    }

    method RemovePeer(iface: string, key: string) returns (ok: bool)
      modifies host
      ensures forall m :: m != iface ==> SameAt(old(host.links), host.links, m)
      ensures iface in host.links <==> iface in old(host.links)
      ensures ok ==> iface in old(host.links) && host.links[iface] == old(host.links)[iface].(peers :=
                ApplyPeer(old(host.links)[iface].peers, Removal(key)))
      ensures NoFaults() && iface in old(host.links) ==> ok
    {
      hide ApplyPeer;
      ok := host.ConfigurePeers(iface, [PeerCfg(key, true, false, false, [])]);
      OneCall(old(host.links), iface, Removal(key));
    }

    /** The call a database peer needs, if any. */
    method Decide(snap: map<string, seq<IPNet>>, p: Peer) returns (cs: seq<PeerCfg>)
      requires Lawful(other)
      requires forall k, b :: k in snap && b in snap[k] ==> ValidNet(b)
      ensures cs == PlanPeer(snap, p, other) && |cs| <= 1
    {
      if !p.enabled {
        return if p.key in snap then [PeerCfg(p.key, true, false, false, [])] else [];
      }
      var ns := ParseAllowedIPs(p.allowedIPs, other);
      if p.key !in snap {
        return if ns.Some? then [PeerCfg(p.key, false, false, true, ns.value)] else [];
      }
      var same := AllowedIPsMatch(p.allowedIPs, snap[p.key], other);
      if same || ns.None? {
        return [];
      }
      return [PeerCfg(p.key, false, true, true, ns.value)];
    }

    method IndexPeers(d: seq<PeerInfo>) returns (snap: map<string, seq<IPNet>>)
      ensures snap == Index(d)
    {
      snap := map[];
      for i := 0 to |d|
        invariant snap == Index(d[..i])
      {
        assert d[..i + 1][..i] == d[..i];
        snap := snap[d[i].key := d[i].allowed];
      }
      assert d[..|d|] == d;
    }

    /** The calls `cs` have been issued to `iface` since `before` and `log0`. */
    ghost predicate Underway(before: map<string, Link>, log0: seq<Call>, iface: string, cs: seq<PeerCfg>,
                             mask: seq<bool>)
      reads host
    {
      && Issued(before, host.links, iface, cs, mask)
      && host.log == log0 + PeerCalls(iface, cs)
      && (NoFaults() ==> AllOf(mask))
    }

    /** Issues at most one further call of a plan. */
    method IssueMore(ghost before: map<string, Link>, ghost log0: seq<Call>, iface: string,
                     ghost issued: seq<PeerCfg>, ghost mask: seq<bool>, cs: seq<PeerCfg>)
      returns (ghost mask': seq<bool>)
      requires |cs| <= 1 && Underway(before, log0, iface, issued, mask)
      modifies host
      ensures Underway(before, log0, iface, issued + cs, mask')
    {
      if |cs| == 0 {
        assert issued + cs == issued;
        return mask;
      }
      hide ApplySome, ApplyPeer;
      ghost var mid := host.links;
      ghost var bit := IssueOne(iface, cs[0]);
      assert cs == [cs[0]];
      IssuedOne(before, mid, host.links, iface, issued, mask, cs[0], bit);
      assert (issued + [cs[0]])[..|issued|] == issued;
      mask' := mask + [bit];
    }

    method SyncKnown(iface: string, snap: map<string, seq<IPNet>>, peers: seq<Peer>)
      returns (known: set<string>, ghost mask: seq<bool>)
      requires Lawful(other) && iface in host.links
      requires forall k, b :: k in snap && b in snap[k] ==> ValidNet(b)
      modifies host
      ensures known == KeysOf(peers)
      ensures Underway(old(host.links), old(host.log), iface, PlanPeers(snap, peers, other), mask)
    {
      hide PlanPeer, ApplySome, ValidNet, Lawful;
      ghost var before, log0 := host.links, host.log;
      IssuedNone(host.links, iface);
      known, mask := {}, [];
      for i := 0 to |peers|
        invariant known == KeysOf(peers[..i])
        invariant Underway(before, log0, iface, PlanPeers(snap, peers[..i], other), mask)
      {
        var cs := Decide(snap, peers[i]);
        mask := IssueMore(before, log0, iface, PlanPeers(snap, peers[..i], other), mask, cs);
        known := known + {peers[i].key};
        NextPeer(snap, peers, i, other);
      }
      assert peers[..|peers|] == peers;
    }

    method DropOrphans(ghost before: map<string, Link>, ghost log0: seq<Call>, iface: string,
                       d: seq<PeerInfo>, known: set<string>, ghost first: seq<PeerCfg>, ghost mask: seq<bool>)
      returns (ghost mask': seq<bool>)
      requires Underway(before, log0, iface, first, mask)
      modifies host
      ensures Underway(before, log0, iface, first + PlanOrphans(d, known), mask')
    {
      mask' := mask;
      assert first + PlanOrphans(d[..0], known) == first;
      for i := 0 to |d|
        invariant Underway(before, log0, iface, first + PlanOrphans(d[..i], known), mask')
      {
        var cs := if d[i].key in known then [] else [PeerCfg(d[i].key, true, false, false, [])];
        mask' := IssueMore(before, log0, iface, first + PlanOrphans(d[..i], known), mask', cs);
        assert first + PlanOrphans(d[..i], known) + cs == first + PlanOrphans(d[..i + 1], known) by {
          assert d[..i + 1][..i] == d[..i];
        }
      }
      assert d[..|d|] == d;
    }

    /** Issues the whole plan; `mask` records which calls took effect. */
    method SyncPeers(iface: string, d: seq<PeerInfo>, peers: seq<Peer>) returns (ghost mask: seq<bool>)
      requires Lawful(other) && iface in host.links && ValidSnapshot(d)
      modifies host
      ensures Underway(old(host.links), old(host.log), iface, Plan(d, peers, other), mask)
    {
      ghost var before, log0 := host.links, host.log;
      var snap := IndexPeers(d);
      ValidIndex(d);
      var known;
      known, mask := SyncKnown(iface, snap, peers);
      mask := DropOrphans(before, log0, iface, d, known, PlanPeers(snap, peers, other), mask);
    }

    // ----- One network -----

    method EnsureInterface(n: Network, dev: Option<DeviceInfo>) returns (ok: bool)
      requires dev.Some? <==> n.iface in host.links
      requires dev.Some? ==> Describes(dev.value.peers, host.links[n.iface].peers)
      modifies host
      ensures forall m :: m != n.iface ==> SameAt(old(host.links), host.links, m)
      ensures dev.Some? ==> ok && host.links == old(host.links) && host.log == old(host.log)
      ensures ok ==> n.iface in host.links
      ensures ok ==> Describes(if dev.Some? then dev.value.peers else [], host.links[n.iface].peers)
      ensures ok && n.enabled ==> NetworkMade(n, old(host.links), host.links, other, first6)
      ensures NoFaults() && ParseNet(n.subnet, other).Some? ==> ok
    {
      if dev.Some? {
        return true;
      }
      ok := CreateInterface(n);
      if !ok && host.links != old(host.links) {
        forall m | m != n.iface
          ensures SameAt(old(host.links), host.links, m)
        {
          assert SameAt(host.links - {n.iface}, host.links, m);
        }
      }
    }

    /** Brings one network's interface into step.  `dev` is the snapshot entry, taken before
        any network was handled. */
    method ReconcileNetwork(db: Database, n: Network, dev: Option<DeviceInfo>)
      requires Lawful(other)
      requires dev.Some? <==> n.iface in host.links
      requires dev.Some? ==> Describes(dev.value.peers, host.links[n.iface].peers) && ValidSnapshot(dev.value.peers)
      modifies host
      ensures forall m :: m != n.iface ==> SameAt(old(host.links), host.links, m)
      ensures NetworkSafe(db, n, old(host.links), host.links, other)
      ensures NoFaults() && NetworkOk(db, n, other) ==> NetworkDone(db, n, host.links, other)
      ensures NoFaults() && NetworkOk(db, n, other) ==> NetworkMade(n, old(host.links), host.links, other, first6)
      ensures NoFaults() && NetworkOk(db, n, other) && NetworkDone(db, n, old(host.links), other) ==>
                host.links == old(host.links) && host.log == old(host.log)
    {
      if !n.enabled {
        if dev.Some? {
          var _ := DeleteInterface(n.iface);
        }
        return;
      }
      var ok := EnsureInterface(n, dev);
      if !ok { return; }
      var listed := host.Read();
      if !listed { return; }
      ghost var mid := host.links;
      SyncNetwork(db, n, if dev.Some? then dev.value.peers else []);
      forall m | m != n.iface
        ensures SameAt(old(host.links), host.links, m)
      {
        assert SameAt(old(host.links), mid, m) && SameAt(mid, host.links, m);
      }
    }

    /** Snapshot entries by name. */
    method IndexDevices(ds: seq<DeviceInfo>, ghost links: map<string, Link>) returns (m: map<string, DeviceInfo>)
      requires DescribesAll(ds, links) && ValidLinks(links)
      ensures m.Keys == links.Keys
      ensures forall k :: k in m ==> Describes(m[k].peers, links[k].peers) && ValidSnapshot(m[k].peers)
    {
      hide DescribesAll, ValidLinks, Describes, ValidSnapshot;
      m := map[];
      for i := 0 to |ds|
        invariant forall x :: 0 <= x < i ==> ds[x].name in m
        invariant forall k :: k in m ==> m[k].name == k && m[k] in ds[..i]
      {
        assert ds[..i + 1] == ds[..i] + [ds[i]];
        m := m[ds[i].name := ds[i]];
      }
      assert ds[..|ds|] == ds;
      IndexComplete(ds, links, m);
    }

    /** Compares the whole kernel with the database and corrects every difference. */
    method Reconcile(db: Database) returns (ok: bool)
      requires Lawful(other) && ValidLinks(host.links) && DistinctIfaces(db)
      modifies host
      // Whatever fails: unmanaged interfaces are untouched, and enabled peers stay.
      ensures forall m :: !Managed(db, m) ==> SameAt(old(host.links), host.links, m)
      ensures forall n :: n in db.networks ==> NetworkSafe(db, n, old(host.links), host.links, other)
      // If nothing fails, the kernel ends up as the database says ...
      ensures NoFaults() && DatabaseOk(db, other) ==> ok && InStep(db, host.links, other) && ValidLinks(host.links)
      // ... with every missing interface set up in full ...
      ensures NoFaults() && DatabaseOk(db, other) ==>
                forall n :: n in db.networks ==> NetworkMade(n, old(host.links), host.links, other, first6)
      // ... and a kernel that is already so is left alone, without a single changing call.
      ensures NoFaults() && DatabaseOk(db, other) && InStep(db, old(host.links), other) ==>
                host.links == old(host.links) && host.log == old(host.log)
    {
      ok := host.Read();
      if !ok { return; }
      var devices := host.Devices();
      if devices.None? { return false; }
      ghost var before, log0 := host.links, host.log;
      var byName := IndexDevices(devices.value, host.links);
      for i := 0 to |db.networks|
        invariant OthersSame(db, i, before, host.links) && SafeSoFar(db, i, before, host.links, other)
        invariant NoFaults() && DatabaseOk(db, other) ==> DoneSoFar(db, i, host.links, other)
        invariant NoFaults() && DatabaseOk(db, other) ==> MadeSoFar(db, i, before, host.links, other, first6)
        invariant NoFaults() && DatabaseOk(db, other) && InStep(db, before, other) ==>
                    host.links == before && host.log == log0
      {
        var n := db.networks[i];
        ghost var mid := host.links;
        assert SameAt(before, mid, n.iface);
        ReconcileNetwork(db, n, if n.iface in byName then Some(byName[n.iface]) else None);
        NextNetwork(db, i, before, mid, host.links, other);
        NextMade(db, i, before, mid, host.links, other, first6);
      }
      forall m | !Managed(db, m)
        ensures SameAt(before, host.links, m)
      {
        assert forall j :: 0 <= j < |db.networks| ==> db.networks[j] in db.networks;
      }
      if NoFaults() && DatabaseOk(db, other) {
        InStepValid(db, before, host.links, other);
      }
    }

    /** One pass settles the kernel: a second, right after it, issues no changing call. */
    method ReconcileTwice(db: Database) returns (ghost between: seq<Call>)
      requires Lawful(other) && ValidLinks(host.links) && DistinctIfaces(db)
      requires NoFaults() && DatabaseOk(db, other)
      modifies host
      ensures InStep(db, host.links, other) && host.log == between
    {
      var _ := Reconcile(db);
      between := host.log;
      var _ := Reconcile(db);
    }

    method SyncNetwork(db: Database, n: Network, d: seq<PeerInfo>)
      requires Lawful(other) && n.enabled && n.iface in host.links
      requires Describes(d, host.links[n.iface].peers) && ValidSnapshot(d)
      modifies host
      ensures forall m :: m != n.iface ==> SameAt(old(host.links), host.links, m)
      ensures NetworkSafe(db, n, old(host.links), host.links, other)
      ensures NoFaults() && WellFormed(PeersOf(db, n.id), other) ==> NetworkDone(db, n, host.links, other)
      ensures NoFaults() && WellFormed(PeersOf(db, n.id), other) && NetworkDone(db, n, old(host.links), other) ==>
                host.links == old(host.links) && host.log == old(host.log)
    {
      ghost var ps := host.links[n.iface].peers;
      ghost var peers := PeersOf(db, n.id);
      ghost var mask := SyncPeers(n.iface, d, PeersOf(db, n.id));
      if DistinctKeys(peers) {
        PlanHarmless(d, peers, other);
        PlanSafe(ps, Plan(d, peers, other), mask, peers, other);
      }
      if NoFaults() && WellFormed(peers, other) {
        ApplySomeAll(ps, Plan(d, peers, other), mask);
        PlanConverges(ps, d, peers, other);
        if Agrees(ps, peers, other) {
          PlanQuiet(ps, d, peers, other);
          IssuedNone(old(host.links), n.iface);
        }
      }
    }
  }

  lemma OneCall(links: map<string, Link>, iface: string, c: PeerCfg)
    ensures iface in links ==> ApplyPeers(links[iface].peers, [c][..1]) == ApplyPeer(links[iface].peers, c)
  {
    if iface in links {
      ApplyOne(links[iface].peers, c);
      assert [c][..1] == [c];
    }
  }

  lemma DescribedValid(d: seq<PeerInfo>, ps: Peers)
    requires Describes(d, ps) && forall k, b :: k in ps && b in ps[k] ==> ValidNet(b)
    ensures ValidSnapshot(d)
  {
    forall i, b | 0 <= i < |d| && b in d[i].allowed
      ensures ValidNet(b)
    {
      assert b in Elems(d[i].allowed);
    }
  }

  lemma DeviceDescribed(ds: seq<DeviceInfo>, links: map<string, Link>, dev: DeviceInfo)
    requires DescribesAll(ds, links) && ValidLinks(links) && dev in ds
    ensures dev.name in links && Describes(dev.peers, links[dev.name].peers) && ValidSnapshot(dev.peers)
  {
    var i :| 0 <= i < |ds| && ds[i] == dev;
    DescribedValid(dev.peers, links[dev.name].peers);
  }

  lemma IndexComplete(ds: seq<DeviceInfo>, links: map<string, Link>, m: map<string, DeviceInfo>)
    requires DescribesAll(ds, links) && ValidLinks(links)
    requires forall x :: 0 <= x < |ds| ==> ds[x].name in m
    requires forall k :: k in m ==> m[k].name == k && m[k] in ds
    ensures m.Keys == links.Keys
    ensures forall k :: k in m ==> Describes(m[k].peers, links[k].peers) && ValidSnapshot(m[k].peers)
  {
    forall k | k in m
      ensures k in links && Describes(m[k].peers, links[k].peers) && ValidSnapshot(m[k].peers)
    {
      DeviceDescribed(ds, links, m[k]);
    }
    forall k | k in links
      ensures k in m
    {
      var i :| 0 <= i < |ds| && ds[i].name == k;
    }
  }

  ghost predicate ValidPeers(ps: Peers) {
    forall k, b :: k in ps && b in ps[k] ==> ValidNet(b)
  }

  lemma AgreesValid(ps: Peers, peers: seq<Peer>, other: OtherNets)
    requires Lawful(other) && Agrees(ps, peers, other)
    ensures ValidPeers(ps)
  {
    hide Blocks, ValidNet;
    forall k, b | k in ps && b in ps[k]
      ensures ValidNet(b)
    {
      var i :| 0 <= i < |peers| && peers[i].enabled && peers[i].key == k;
      BlocksValid(peers[i], other);
    }
  }

  /** Blocks put in place by a settled pass are proper ones, as the next pass assumes. */
  lemma InStepValid(db: Database, before: map<string, Link>, after: map<string, Link>, other: OtherNets)
    requires Lawful(other) && ValidLinks(before) && InStep(db, after, other)
    requires forall m :: !Managed(db, m) ==> SameAt(before, after, m)
    ensures ValidLinks(after)
  {
    hide Agrees, ValidNet, Blocks;
    forall m | m in after
      ensures ValidPeers(after[m].peers)
    {
      if Managed(db, m) {
        var n :| n in db.networks && n.iface == m;
        assert NetworkDone(db, n, after, other);
        AgreesValid(after[m].peers, PeersOf(db, n.id), other);
      } else {
        assert SameAt(before, after, m);
      }
    }
  }

  lemma BlocksValid(p: Peer, other: OtherNets)
    requires Lawful(other)
    ensures forall b :: b in Blocks(p, other) ==> ValidNet(b)
  {
    ParsePartsValid(Text.TrimmedParts(Text.Split(p.allowedIPs, ',')), other);
  }

  // ----- Walking the networks -----

  /** The first `i` networks are handled; everything else is as it was. */
  ghost predicate OthersSame(db: Database, i: nat, before: map<string, Link>, after: map<string, Link>)
    requires i <= |db.networks|
  {
    forall m :: (forall j :: 0 <= j < i ==> db.networks[j].iface != m) ==> SameAt(before, after, m)
  }

  ghost predicate SafeSoFar(db: Database, i: nat, before: map<string, Link>, after: map<string, Link>, other: OtherNets)
    requires i <= |db.networks|
  {
    forall j :: 0 <= j < i ==> NetworkSafe(db, db.networks[j], before, after, other)
  }

  ghost predicate DoneSoFar(db: Database, i: nat, links: map<string, Link>, other: OtherNets)
    requires i <= |db.networks|
  {
    forall j :: 0 <= j < i ==> NetworkDone(db, db.networks[j], links, other)
  }

  ghost predicate MadeSoFar(db: Database, i: nat, before: map<string, Link>, after: map<string, Link>, other: OtherNets,
                            first6: string -> string)
    requires i <= |db.networks|
  {
    forall j :: 0 <= j < i ==> NetworkMade(db.networks[j], before, after, other, first6)
  }

  lemma NextMade(db: Database, i: nat, before: map<string, Link>, mid: map<string, Link>, after: map<string, Link>,
                 other: OtherNets, first6: string -> string)
    requires DistinctIfaces(db) && i < |db.networks|
    requires OthersSame(db, i, before, mid) && forall m :: m != db.networks[i].iface ==> SameAt(mid, after, m)
    ensures MadeSoFar(db, i, before, mid, other, first6) && NetworkMade(db.networks[i], mid, after, other, first6) ==>
              MadeSoFar(db, i + 1, before, after, other, first6)
  {
    hide ParseNet, NewLink;
    assert SameAt(before, mid, db.networks[i].iface);
    forall j | 0 <= j < i
      ensures SameAt(mid, after, db.networks[j].iface)
    {
    }
  }

  lemma NextNetwork(db: Database, i: nat, before: map<string, Link>, mid: map<string, Link>, after: map<string, Link>,
                    other: OtherNets)
    requires DistinctIfaces(db) && i < |db.networks|
    requires OthersSame(db, i, before, mid) && SafeSoFar(db, i, before, mid, other)
    requires forall m :: m != db.networks[i].iface ==> SameAt(mid, after, m)
    requires NetworkSafe(db, db.networks[i], mid, after, other)
    ensures OthersSame(db, i + 1, before, after) && SafeSoFar(db, i + 1, before, after, other)
    ensures DoneSoFar(db, i, mid, other) && NetworkDone(db, db.networks[i], after, other) ==>
              DoneSoFar(db, i + 1, after, other)
  {
    assert SameAt(before, mid, db.networks[i].iface);
    forall j | 0 <= j < i
      ensures SameAt(mid, after, db.networks[j].iface)
    {
    }
    forall m | forall j :: 0 <= j < i + 1 ==> db.networks[j].iface != m
      ensures SameAt(before, after, m)
    {
      assert SameAt(before, mid, m) && SameAt(mid, after, m);
    }
  }

  lemma {:induction false} ValidIndex(d: seq<PeerInfo>)
    requires ValidSnapshot(d)
    ensures forall k, b :: k in Index(d) && b in Index(d)[k] ==> ValidNet(b)
  {
    if d != [] {
      var n := |d| - 1;
      assert forall i :: 0 <= i < n ==> d[..n][i] == d[i];
      ValidIndex(d[..n]);
      assert forall b :: b in d[n].allowed ==> ValidNet(b);
    }
  }

  lemma NextPeer(snap: map<string, seq<IPNet>>, peers: seq<Peer>, i: nat, other: OtherNets)
    requires i < |peers|
    ensures KeysOf(peers[..i + 1]) == KeysOf(peers[..i]) + {peers[i].key}
    ensures PlanPeers(snap, peers[..i + 1], other)
         == PlanPeers(snap, peers[..i], other) + PlanPeer(snap, peers[i], other)
  {
    assert peers[..i + 1] == peers[..i] + [peers[i]];
    assert peers[..i + 1][..i] == peers[..i];
    forall k | k in KeysOf(peers[..i])
      ensures k in KeysOf(peers[..i + 1])
    {
      var p :| p in peers[..i] && p.key == k;
      assert p in peers[..i + 1];
    }
    assert peers[i] in peers[..i + 1];
  }
}
