/** The handlers that create and delete networks and peers, over the stored rows. */
module Handlers {
  import opened Wrappers
  import opened Cidr
  import opened Blocks
  import opened Inventory
  import opened InventoryRuns
  import opened Arith
  import Text
  import Bytes = IpBytes
  import Pool = IpPool
  import Alloc = IpAlloc
  import H = NftHistory
  import N = NftManager
  import K = Kernel
  import S = PeerSync
  import R = Reconcile
  import V = Provision

  lemma RefusedStep(s: State, subnet: string, port: int, other: OtherAddrs)
    ensures Step(s, NewNetwork(subnet, port, false), other) == s
  {
  }

  lemma SlashTwo(a: nat)
    requires a < ADDRESSES
    ensures CidrText(a, 32) == PrintIPv4(a) + "/32"
  {
    hide PrintIPv4;
    assert Text.Decimal(32) == "32";
  }

  class Server {
    var networks: seq<Network>
    var peers: seq<Peer>
    var nextNetwork: nat
    var nextPeer: nat
    const other: OtherAddrs
    const print6: seq<Byte> -> string

    constructor (other: OtherAddrs, print6: seq<Byte> -> string)
      ensures this.other == other && this.print6 == print6 && View() == Empty && Orderly(View())
    {
      this.other, this.print6 := other, print6;
      networks, peers, nextNetwork, nextPeer := [], [], 1, 1;
    }

    ghost function View(): State
      reads this
    {
      State(networks, peers, nextNetwork, nextPeer)
    }

    /** Validation, the overlap and port loops, and the next free name; None is a refusal. */
    method Admit(subnet: string, port: int) returns (name: Option<string>)
      requires Orderly(View())
      ensures name.Some? <==>
                && ParseCIDR4(subnet).Some? && 1024 <= port <= 65535
                && var (a, ones) := ParseCIDR4(subnet).value;
                   && 16 <= ones <= 30 && Rfc1918(a) && Disjoint(networks, a, ones)
                   && forall n :: n in networks ==> n.port != port
      ensures name.Some? ==> exists i: nat :: i <= |networks| && LeastName(networks, i, name.value)
      ensures name.None? ==> Step(View(), NewNetwork(subnet, port, true), other) == View()
      ensures name.Some? ==>
                Step(View(), NewNetwork(subnet, port, true), other)
                == State(networks + [Network(nextNetwork, name.value, subnet, port)], peers, nextNetwork + 1, nextPeer)
    {
      hide Orderly, IsValidPrivateCIDR, ParseCIDR4, SubnetTaken, PortTaken, NextIndex, Ifaces, IfaceName, Disjoint,
           LeastName, Rfc1918;
      AcceptedExactly(subnet);
      if !IsValidPrivateCIDR(subnet) || port < 1024 || port > 65535 {
        return None;
      }
      var (a, ones) := Subnet(subnet);
      var overlap := CheckSubnet(networks, a, ones);
      if overlap { return None; }
      var taken := CheckPort(networks, port);
      if taken { return None; }
      var free := NextInterfaceName(networks);
      return Some(free);
    }

    /** The checks, then interface, firewall and row, with the clean-up in between.  `fields`
        stands for the checks on other fields and the key pair, `stored` for the insert. */
    method HandleCreateNetwork(wg: R.Manager, nft: N.Manager, subnet: string, port: int, secret: string, masq: bool,
                               interPeer: bool, fields: bool, stored: bool)
      returns (ok: bool, ghost done: seq<H.Op>, ghost n: R.Network)
      requires Orderly(View()) && nft.applier.Valid()
      modifies this, wg.host, nft, nft.applier
      ensures Orderly(View()) && View() == Step(old(View()), NewNetwork(subnet, port, ok), other)
      ensures var s' := Step(old(View()), NewNetwork(subnet, port, true), other);
              && (ok ==> fields && stored && s' != old(View()))
              && (fields && s' != old(View()) ==>
                    && s'.networks == old(networks) + [Network(old(nextNetwork), n.iface, subnet, port)]
                    && (wg.NoFaults() && V.NeverFails(nft) && stored && n.iface !in old(wg.host.links) ==> ok))
      ensures ok ==> networks == old(networks) + [Network(old(nextNetwork), n.iface, subnet, port)]
      ensures ok ==> n == R.Network(old(nextNetwork), n.iface, subnet, port, secret, true)
      ensures ok ==> done == V.Calls(n, masq, interPeer)
      ensures ok ==> ParseNet(subnet, wg.other).Some? && n.iface !in old(wg.host.links)
      ensures ok ==>
                var made := R.NewLink(n, ParseNet(subnet, wg.other).value, wg.first6);
                wg.host.links == old(wg.host.links)[n.iface := made]
      ensures wg.NoFaults() && !ok ==> wg.host.links == old(wg.host.links)
      ensures forall m :: m != n.iface ==> R.SameAt(old(wg.host.links), wg.host.links, m)
      ensures nft.applier.Valid() && nft.rules == V.AddAll(old(nft.rules), done) && done <= V.Calls(n, masq, interPeer)
    {
      hide Orderly, Step, ParseNet, ParseCIDR4, R.NewLink, V.AddAll, V.Calls, V.NeverFails, Disjoint, LeastName;
      StepKeeps(View(), NewNetwork(subnet, port, true), other);
      V.AddNone(nft.rules);
      RefusedStep(View(), subnet, port, other);
      ok, done, n := false, [], R.Network(nextNetwork, "", subnet, port, secret, true);
      if !fields { return; }
      var name := Admit(subnet, port);
      if name.None? { return; }
      ParsedBlock(subnet, wg.other);
      var made := R.Network(nextNetwork, name.value, subnet, port, secret, true);
      n := made;
      ok, done := V.MakeNetwork(wg, nft, made, masq, interPeer, stored);
      if ok {
        networks := networks + [Network(nextNetwork, name.value, subnet, port)];
        nextNetwork := nextNetwork + 1;
      }
    }

    static function Subnet(subnet: string): (r: (nat, nat))
      requires IsValidPrivateCIDR(subnet)
      ensures ParseCIDR4(subnet) == Some(r) && r.0 < ADDRESSES && 16 <= r.1 <= 30
    {
      ParseCIDR4(subnet).value
    }

    /** Firewall rules, interface and row; only a failing delete of the row ends it early.  The
        flags and bridges are those stored for the network, `stored` is the row's delete. */
    method HandleDeleteNetwork(wg: R.Manager, nft: N.Manager, id: nat, masq: bool, interPeer: bool,
                               bridges: seq<string>, stored: bool)
      returns (ok: bool, ghost gone: set<string>)
      requires Orderly(View()) && nft.applier.Valid()
      modifies this, wg.host, nft, nft.applier
      ensures Orderly(View()) && View() == Step(old(View()), DropNetwork(id, ok), other)
      ensures ok <==> stored && FindNetwork(old(networks), id).Some?
      ensures match FindNetwork(old(networks), id)
              case None => wg.host.links == old(wg.host.links) && nft.rules == old(nft.rules) && nft.applier.Valid()
              case Some(n) =>
                && (forall m :: m != n.iface ==> R.SameAt(old(wg.host.links), wg.host.links, m))
                && (wg.NoFaults() ==> n.iface !in wg.host.links)
                && V.Removed(nft, old(nft.rules), V.KeysFor(n.iface, n.port, masq, interPeer, bridges), gone)
    {
      hide Orderly, KeepPeers, KeepNetworks, V.KeysFor;
      StepKeeps(View(), DropNetwork(id, true), other);
      var n := FindNetwork(networks, id);
      if n.None? { return false, {}; }
      gone := V.CloseFirewall(nft, n.value.iface, n.value.port, masq, interPeer, bridges);
      var _ := wg.DeleteInterface(n.value.iface);
      ok := stored;
      if ok {
        networks, peers := KeepNetworks(networks, id), KeepPeers(peers, Some(id), None);
      }
    }

    /** Allocation for a new peer: a fresh allocator over the addresses its peers list.  Without
        a mask bit it returns only while an address is free. */
    method AllocateFor(n: Network, a: nat, ones: nat) returns (r: Option<nat>)
      requires a < ADDRESSES && ones <= 32
      requires ones == 0 ==>
                 exists x: nat :: x + 1 < ADDRESSES && x !in Taken(View(), n, Masked(a, ones), other)
      ensures r == Granted(View(), n, a, ones, other)
    {
      hide Pool.TakenOf, Pool.Grant, Pool.Ends, Pool.Show, Bytes.Bytes4, Bytes.Value, UsedTexts, Masked, Size;
      var texts := CollectUsed(peers, n.id, other);
      Bytes.Bytes4Value(a);
      var alloc := new Alloc.IPAllocator(Bytes.Bytes4(a), ones, texts, print6);
      Pool.EndsExactly(alloc.View());
      assert Pool.TakenOf(alloc.used) == Taken(View(), n, Masked(a, ones), other);
      var ip := alloc.Allocate();
      if ip.None? {
        return None;
      }
      return Some(Bytes.Value(ip.value));
    }

    /** The create came as far as the device of its network, with the address it was granted. */
    ghost predicate PeerAttempt(s: State, network: nat, role: string, sites: string, key: string, iface: string,
                                before: map<string, K.Link>, after: map<string, K.Link>, nets: S.OtherNets, ok: bool)
    {
      && (exists n :: n in s.networks && n.id == network && n.iface == iface)
      && var x := Pick(s, network, role, sites, other);
         x.Some? && V.PeerTried(before, after, iface, key, S.BlocksIn(AllowedFor(x.value, role, sites), nets), ok)
    }

    /** Checks, an address, the kernel and the row, with the peer removed again when the insert
        fails.  `fields` and `stored` are as above; `key` is the new public key. */
    method HandleCreatePeer(wg: R.Manager, network: nat, role: string, sites: string, key: string, fields: bool,
                            stored: bool)
      returns (ok: bool, ghost iface: string)
      requires Orderly(View())
      modifies this, wg.host
      ensures Orderly(View()) && View() == Step(old(View()), NewPeer(network, role, sites, ok), other)
      ensures ok ==> fields && stored && Pick(old(View()), network, role, sites, other).Some?
      ensures fields && Pick(old(View()), network, role, sites, other).Some? ==>
                exists n :: n in networks && n.id == network && n.iface == iface
      ensures wg.NoFaults() && fields && stored && Pick(old(View()), network, role, sites, other).Some? ==>
                var x := Pick(old(View()), network, role, sites, other).value;
                ok <==> iface in old(wg.host.links) && ParseList(AllowedFor(x, role, sites), wg.other).Some?
      ensures ok ==> exists n :: n in networks && n.id == network && n.iface == iface
      ensures ok ==> |peers| == |old(peers)| + 1 && iface in old(wg.host.links) && iface in wg.host.links
      ensures ok ==>
                var ns := ParseList(peers[|peers| - 1].allowedIPs, wg.other);
                && ns.Some?
                && wg.host.links[iface].peers ==
                   K.ApplyPeer(old(wg.host.links)[iface].peers, S.Setting(key, false, ns.value))
      ensures forall m :: m != iface ==> R.SameAt(old(wg.host.links), wg.host.links, m)
      ensures wg.NoFaults() ==>
                || (!ok && forall m :: R.SameAt(old(wg.host.links), wg.host.links, m))
                || PeerAttempt(old(View()), network, role, sites, key, iface, old(wg.host.links), wg.host.links,
                               wg.other, ok)
    {
      hide Orderly, ValidSites, CidrText, PrintIPv4, Granted, IsValidPrivateCIDR, ParseCIDR4, FindNetwork, ParseList;
      StepKeeps(View(), NewPeer(network, role, sites, true), other);
      ok, iface := false, "";
      if !fields || (role != "client" && role != "site-gateway") {
        return;
      }
      if role == "site-gateway" {
        var fine := CheckSites(sites, other);
        if !fine { return; }
      }
      var n := FindNetwork(networks, network);
      if n.None? { return; }
      NetworkIsValid(View(), n.value);
      var (a, ones) := Subnet(n.value.subnet);
      var x := AllocateFor(n.value, a, ones);
      if x.None? { return; }
      iface := n.value.iface;
      SlashTwo(x.value);
      var allowed := PrintIPv4(x.value) + "/32";
      if role == "site-gateway" && sites != "" {
        allowed := allowed + ", " + sites;
      }
      ok := V.MakePeer(wg, n.value.iface, S.Peer(key, allowed, true), stored);
      if ok {
        peers := peers + [Peer(nextPeer, network, allowed)];
        nextPeer := nextPeer + 1;
      }
    }

    /** Kernel, then row; a failing kernel call is only logged.  `key` is the public key stored
        in the row. */
    method HandleDeletePeer(wg: R.Manager, network: nat, id: nat, key: string, stored: bool) returns (ok: bool)
      requires Orderly(View())
      modifies this, wg.host
      ensures Orderly(View()) && View() == Step(old(View()), DropPeer(network, id, ok), other)
      ensures var n := FindNetwork(old(networks), network);
              if n.Some? && (exists p :: p in old(peers) && p.id == id && p.network == network)
              then
                && ok == stored && (forall m :: m != n.value.iface ==> R.SameAt(old(wg.host.links), wg.host.links, m))
                && (wg.NoFaults() && n.value.iface in old(wg.host.links) ==>
                      && n.value.iface in wg.host.links
                      && wg.host.links[n.value.iface].peers == old(wg.host.links)[n.value.iface].peers - {key})
              else !ok && wg.host.links == old(wg.host.links)
    {
      hide Orderly, KeepPeers;
      StepKeeps(View(), DropPeer(network, id, true), other);
      var found := FindPeer(network, id);
      var n := FindNetwork(networks, network);
      if n.None? || !found { return false; }
      var _ := wg.RemovePeer(n.value.iface, key);
      ok := stored;
      if ok {
        peers := KeepPeers(peers, None, Some(id));
      }
    }

    method FindPeer(network: nat, id: nat) returns (found: bool)
      ensures found <==> exists p :: p in peers && p.id == id && p.network == network
    {
      for i := 0 to |peers|
        invariant forall j :: 0 <= j < i ==> !(peers[j].id == id && peers[j].network == network)
      {
        if peers[i].id == id && peers[i].network == network {
          return true;
        }
      }
      return false;
    }
  }
}
