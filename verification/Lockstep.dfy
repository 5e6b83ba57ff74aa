/**
 The handlers keep the kernel in step with the rows they store: without a kernel fault, and
 with site networks that fit, no reconciliation is ever needed.
 */
module Lockstep {
  import opened Wrappers
  import opened Cidr
  import opened Blocks
  import opened InventoryRuns
  import opened UsedHosts
  import opened Deployment
  import I = Inventory
  import S = PeerSync
  import R = Reconcile
  import K = Kernel
  import N = NftManager
  import V = Provision
  import W = Handlers

  type Keys = nat -> string

  // ----- Devices and rows -----

  /** The device of a network holds exactly the peers stored for it, each with its blocks. */
  ghost predicate Holds(q: K.Peers, ps: seq<I.Peer>, network: nat, keyOf: Keys, nets: S.OtherNets) {
    && (forall p :: p in ps && p.network == network ==>
          keyOf(p.id) in q && q[keyOf(p.id)] == S.BlocksIn(p.allowedIPs, nets))
    && (forall k :: k in q ==> exists p :: p in ps && p.network == network && keyOf(p.id) == k)
  }

  ghost predicate Tracks(s: I.State, links: map<string, K.Link>, keyOf: Keys, nets: S.OtherNets) {
    forall n :: n in s.networks ==> n.iface in links && Holds(links[n.iface].peers, s.peers, n.id, keyOf, nets)
  }

  lemma {:induction false} RowOf(ps: seq<I.Peer>, p: I.Peer, network: nat, keyOf: Keys) returns (a: nat)
    requires p in ps && p.network == network
    ensures a < |RowsOf(ps, network, keyOf)| && RowsOf(ps, network, keyOf)[a] == Row(p, keyOf)
  {
    var n := |ps| - 1;
    if p in ps[..n] {
      a := RowOf(ps[..n], p, network, keyOf);
    } else {
      a := |RowsOf(ps[..n], network, keyOf)|;
    }
  }

  lemma HoldsAgrees(q: K.Peers, ps: seq<I.Peer>, network: nat, keyOf: Keys, nets: S.OtherNets)
    requires Holds(q, ps, network, keyOf, nets)
    ensures S.Agrees(q, RowsOf(ps, network, keyOf), nets)
  {
    hide RowsOf, S.BlocksIn;
    var rows := RowsOf(ps, network, keyOf);
    forall a | 0 <= a < |rows| && rows[a].enabled
      ensures rows[a].key in q && q[rows[a].key] == S.Blocks(rows[a], nets)
    {
      var i := RowFrom(ps, network, keyOf, a);
      assert ps[i] in ps;
    }
    forall k | k in q
      ensures exists a :: 0 <= a < |rows| && rows[a].enabled && rows[a].key == k
    {
      var p :| p in ps && p.network == network && keyOf(p.id) == k;
      var a := RowOf(ps, p, network, keyOf);
    }
  }

  /** Then the kernel is what the database says. */
  lemma TracksInStep(s: I.State, links: map<string, K.Link>, keyOf: Keys, secretOf: Keys, nets: S.OtherNets)
    requires Tracks(s, links, keyOf, nets)
    ensures R.InStep(DatabaseOf(s, keyOf, secretOf), links, nets)
  {
    hide Holds, RowsOf, S.Agrees;
    var db := DatabaseOf(s, keyOf, secretOf);
    forall n | n in db.networks
      ensures R.NetworkDone(db, n, links, nets)
    {
      var i :| 0 <= i < |db.networks| && db.networks[i] == n;
      var m := s.networks[i];
      SameRows(s, keyOf, secretOf, m);
      HoldsAgrees(links[m.iface].peers, s.peers, m.id, keyOf, nets);
    }
  }

  lemma SameLinks(s: I.State, before: map<string, K.Link>, after: map<string, K.Link>, keyOf: Keys, nets: S.OtherNets)
    requires Tracks(s, before, keyOf, nets) && forall m :: R.SameAt(before, after, m)
    ensures Tracks(s, after, keyOf, nets)
  {
    hide Holds;
    forall n | n in s.networks
      ensures n.iface in after && after[n.iface] == before[n.iface]
    {
      assert R.SameAt(before, after, n.iface);
    }
  }

  // ----- A network is added -----

  lemma PeersHaveHomes(s: I.State, p: I.Peer)
    requires Orderly(s) && p in s.peers
    ensures exists n :: n in s.networks && n.id == p.network && n.id < s.nextNetwork
  {
    hide Housed, IsValidPrivateCIDR, Apart;
    var i :| 0 <= i < |s.peers| && s.peers[i] == p;
    assert HasHome(s.peers[i], s.networks);
    var n :| n in s.networks && Housed(p, n);
    HousedId(p, n);
  }

  lemma HousedId(p: I.Peer, n: I.Network)
    requires Housed(p, n)
    ensures p.network == n.id
  {
  }

  lemma NetworkAdded(s: I.State, n: I.Network, before: map<string, K.Link>, link: K.Link, keyOf: Keys,
                     nets: S.OtherNets)
    requires Orderly(s) && Tracks(s, before, keyOf, nets) && n.id == s.nextNetwork
    requires n.iface !in before && link.peers == map[]
    ensures Tracks(s.(networks := s.networks + [n], nextNetwork := s.nextNetwork + 1), before[n.iface := link], keyOf,
                   nets)
  {
    hide S.BlocksIn, Orderly;
    forall p | p in s.peers
      ensures p.network != n.id
    {
      PeersHaveHomes(s, p);
    }
  }

  // ----- A peer is added -----

  /** Blocks that go with the rows are held by no peer of the device, and the key is new. */
  lemma NewToDevice(q: K.Peers, s: I.State, network: nat, keyOf: Keys, blocks: set<IPNet>, nets: S.OtherNets)
    requires Holds(q, s.peers, network, keyOf, nets) && Injective(keyOf)
    requires forall i :: 0 <= i < |s.peers| ==> s.peers[i].id < s.nextPeer
    requires forall i :: 0 <= i < |s.peers| && s.peers[i].network == network ==>
               blocks !! S.BlocksIn(s.peers[i].allowedIPs, nets)
    ensures keyOf(s.nextPeer) !in q && forall k :: k in q ==> q[k] !! blocks
  {
    hide S.BlocksIn;
    forall k | k in q
      ensures k != keyOf(s.nextPeer) && q[k] !! blocks
    {
      var p :| p in s.peers && p.network == network && keyOf(p.id) == k;
      var i :| 0 <= i < |s.peers| && s.peers[i] == p;
    }
  }

  lemma DeviceGains(q: K.Peers, s: I.State, p: I.Peer, keyOf: Keys, nets: S.OtherNets)
    requires Holds(q, s.peers, p.network, keyOf, nets) && p.id == s.nextPeer && Injective(keyOf)
    requires keyOf(p.id) !in q && forall k :: k in q ==> q[k] !! S.BlocksIn(p.allowedIPs, nets)
    requires forall i :: 0 <= i < |s.peers| ==> s.peers[i].id < s.nextPeer
    ensures Holds(K.Give(q, keyOf(p.id), S.BlocksIn(p.allowedIPs, nets), {}), s.peers + [p], p.network, keyOf, nets)
  {
    hide S.BlocksIn;
    var blocks, key := S.BlocksIn(p.allowedIPs, nets), keyOf(p.id);
    var q' := K.Give(q, key, blocks, {});
    var ps := s.peers + [p];
    forall r | r in ps && r.network == p.network
      ensures keyOf(r.id) in q' && q'[keyOf(r.id)] == S.BlocksIn(r.allowedIPs, nets)
    {
      if r in s.peers {
        var i :| 0 <= i < |s.peers| && s.peers[i] == r;
        assert keyOf(r.id) != key;
        assert q[keyOf(r.id)] - blocks == q[keyOf(r.id)];
      }
    }
    forall k | k in q'
      ensures exists r :: r in ps && r.network == p.network && keyOf(r.id) == k
    {
      if k == key {
        assert p in ps;
      } else {
        var r :| r in s.peers && r.network == p.network && keyOf(r.id) == k;
        assert r in ps;
      }
    }
  }

  /** The other devices do not notice the row. */
  lemma OtherDevice(q: K.Peers, ps: seq<I.Peer>, p: I.Peer, network: nat, keyOf: Keys, nets: S.OtherNets)
    requires Holds(q, ps, network, keyOf, nets) && p.network != network
    ensures Holds(q, ps + [p], network, keyOf, nets)
  {
    hide S.BlocksIn;
    forall k | k in q
      ensures exists r :: r in ps + [p] && r.network == network && keyOf(r.id) == k
    {
      var r :| r in ps && r.network == network && keyOf(r.id) == k;
      assert r in ps + [p];
    }
  }

  lemma IfaceOfNetwork(s: I.State, m: I.Network, n: I.Network)
    requires Orderly(s) && m in s.networks && n in s.networks
    ensures m.iface == n.iface || m.id == n.id ==> m == n
  {
    hide IsValidPrivateCIDR;
    SameOrApart(s.networks, s.nextNetwork, m, n);
  }

  /** A create that reached the device: the row and the device gain the peer together, or the
      device is as before. */
  lemma PeerAttempted(s: I.State, n: I.Network, x: nat, role: string, sites: string, before: map<string, K.Link>,
                      after: map<string, K.Link>, ok: bool, keyOf: Keys, other: I.OtherAddrs, nets: S.OtherNets)
    requires Deployable(s, nets) && Tracks(s, before, keyOf, nets) && Consistent(nets, other) && Injective(keyOf)
    requires n in s.networks && I.Pick(s, n.id, role, sites, other) == Some(x)
    requires SitesFitAt(s, n.id, x, role, sites, nets)
    requires V.PeerTried(before, after, n.iface, keyOf(s.nextPeer), S.BlocksIn(I.AllowedFor(x, role, sites), nets), ok)
    ensures Tracks(if ok then I.AddRow(s, n.id, I.AllowedFor(x, role, sites)) else s, after, keyOf, nets)
  {
    hide Orderly, I.Pick, I.AllowedFor, S.BlocksIn, SitesOf, Holds, ReadableRow, Pairwise, Consistent, K.Give;
    var p := I.Peer(s.nextPeer, n.id, I.AllowedFor(x, role, sites));
    var blocks, q := S.BlocksIn(p.allowedIPs, nets), before[n.iface].peers;
    NewRow(s, n.id, x, role, sites, nets);
    forall i | 0 <= i < |s.peers| && s.peers[i].network == n.id
      ensures blocks !! S.BlocksIn(s.peers[i].allowedIPs, nets)
    {
      TunnelBlockIsNew(s, n.id, role, sites, i, other, nets);
    }
    NewToDevice(q, s, n.id, keyOf, blocks, nets);
    V.UndoneExactly(q, keyOf(s.nextPeer), blocks);
    DeviceGains(q, s, p, keyOf, nets);
    forall m | m in s.networks
      ensures m.iface in after
      ensures Holds(after[m.iface].peers, if ok then s.peers + [p] else s.peers, m.id, keyOf, nets)
    {
      IfaceOfNetwork(s, m, n);
      if m != n {
        assert R.SameAt(before, after, m.iface);
        OtherDevice(before[m.iface].peers, s.peers, p, m.id, keyOf, nets);
      }
    }
  }

  // ----- Something is removed -----

  lemma FewerRows(q: K.Peers, ps: seq<I.Peer>, kept: seq<I.Peer>, network: nat, keyOf: Keys, nets: S.OtherNets)
    requires Holds(q, ps, network, keyOf, nets)
    requires forall p: I.Peer :: p.network == network ==> (p in kept <==> p in ps)
    ensures Holds(q, kept, network, keyOf, nets)
  {
    hide S.BlocksIn;
    forall k | k in q
      ensures exists p :: p in kept && p.network == network && keyOf(p.id) == k
    {
      var p :| p in ps && p.network == network && keyOf(p.id) == k;
      assert p in kept;
    }
  }

  lemma NetworkRemoved(s: I.State, n: I.Network, before: map<string, K.Link>, after: map<string, K.Link>, keyOf: Keys,
                       nets: S.OtherNets)
    requires Orderly(s) && n in s.networks && Tracks(s, before, keyOf, nets)
    requires forall m :: m != n.iface ==> R.SameAt(before, after, m)
    ensures Tracks(s.(networks := I.KeepNetworks(s.networks, n.id), peers := I.KeepPeers(s.peers, Some(n.id), None)),
                   after, keyOf, nets)
  {
    hide Orderly, Holds, I.KeepNetworks, I.KeepPeers;
    KeepNetworksFacts(s.networks, n.id);
    KeepPeersFacts(s.peers, Some(n.id), None);
    forall m | m in I.KeepNetworks(s.networks, n.id)
      ensures m.iface in after && Holds(after[m.iface].peers, I.KeepPeers(s.peers, Some(n.id), None), m.id, keyOf, nets)
    {
      IfaceOfNetwork(s, m, n);
      assert R.SameAt(before, after, m.iface);
      FewerRows(before[m.iface].peers, s.peers, I.KeepPeers(s.peers, Some(n.id), None), m.id, keyOf, nets);
    }
  }

  lemma DeviceLoses(q: K.Peers, ps: seq<I.Peer>, kept: seq<I.Peer>, network: nat, id: nat, keyOf: Keys,
                    nets: S.OtherNets)
    requires Holds(q, ps, network, keyOf, nets) && Injective(keyOf)
    requires forall p :: p in kept <==> p in ps && p.id != id
    ensures Holds(q - {keyOf(id)}, kept, network, keyOf, nets)
  {
    hide S.BlocksIn;
    var q' := q - {keyOf(id)};
    forall k | k in q'
      ensures exists p :: p in kept && p.network == network && keyOf(p.id) == k
    {
      var p :| p in ps && p.network == network && keyOf(p.id) == k;
      assert p in kept;
    }
  }

  lemma UniqueId(s: I.State, p: I.Peer, r: I.Peer, nets: S.OtherNets)
    requires Deployable(s, nets) && p in s.peers && r in s.peers && p.id == r.id
    ensures p == r
  {
    hide Orderly, ReadableRow, Disjoint;
    assert forall i, j :: 0 <= i < j < |s.peers| ==> DifferentIds(s.peers[i], s.peers[j]);
    var i :| 0 <= i < |s.peers| && s.peers[i] == p;
    var j :| 0 <= j < |s.peers| && s.peers[j] == r;
  }

  lemma PeerRemoved(s: I.State, n: I.Network, p: I.Peer, before: map<string, K.Link>, after: map<string, K.Link>,
                    keyOf: Keys, nets: S.OtherNets)
    requires Deployable(s, nets) && Injective(keyOf) && Tracks(s, before, keyOf, nets)
    requires n in s.networks && p in s.peers && p.network == n.id
    requires (forall m :: m != n.iface ==> R.SameAt(before, after, m)) && n.iface in after
    requires n.iface in before && after[n.iface].peers == before[n.iface].peers - {keyOf(p.id)}
    ensures Tracks(s.(peers := I.KeepPeers(s.peers, None, Some(p.id))), after, keyOf, nets)
  {
    hide Orderly, Holds, I.KeepPeers, Deployable;
    var kept := I.KeepPeers(s.peers, None, Some(p.id));
    KeepPeersFacts(s.peers, None, Some(p.id));
    IsOrderly(s, nets);
    forall m | m in s.networks
      ensures m.iface in after && Holds(after[m.iface].peers, kept, m.id, keyOf, nets)
    {
      IfaceOfNetwork(s, m, n);
      if m == n {
        DeviceLoses(before[m.iface].peers, s.peers, kept, m.id, p.id, keyOf, nets);
      } else {
        assert R.SameAt(before, after, m.iface);
        forall r: I.Peer | r.network == m.id
          ensures r in kept <==> r in s.peers
        {
          if r in s.peers && r.id == p.id {
            UniqueId(s, p, r, nets);
          }
        }
        FewerRows(before[m.iface].peers, s.peers, kept, m.id, keyOf, nets);
      }
    }
  }

  // ----- Requests -----

  /** A request with the inputs the handlers take from outside; rows are deleted when asked. */
  datatype Request =
    | MakeNetwork(subnet: string, port: int, secret: string, masq: bool, interPeer: bool, fields: bool, stored: bool)
    | MakePeer(network: nat, role: string, sites: string, fields: bool, stored: bool)
    | DropNetwork(id: nat, masq: bool, interPeer: bool, bridges: seq<string>)
    | DropPeer(network: nat, id: nat)

  function OpOf(r: Request, ok: bool): I.Op {
    match r
    case MakeNetwork(subnet, port, _, _, _, _, _) => I.NewNetwork(subnet, port, ok)
    case MakePeer(network, role, sites, _, _) => I.NewPeer(network, role, sites, ok)
    case DropNetwork(id, _, _, _) => I.DropNetwork(id, ok)
    case DropPeer(network, id) => I.DropPeer(network, id, ok)
  }

  lemma OpOfRest(r: Request, ok: bool)
    ensures OpOf(r, ok).rest == ok
  {
  }

  /** Rows and kernel belong together. */
  ghost predicate Together(s: I.State, links: map<string, K.Link>, keyOf: Keys, nets: S.OtherNets) {
    Deployable(s, nets) && Tracks(s, links, keyOf, nets)
  }

  /** The request can be met: its checks pass, there is a free address, or what it deletes is
      there. */
  ghost predicate Due(s: I.State, r: Request, other: I.OtherAddrs) {
    match r
    case MakeNetwork(subnet, port, _, _, _, fields, stored) =>
      fields && stored && I.Step(s, I.NewNetwork(subnet, port, true), other) != s
    case MakePeer(network, role, sites, fields, stored) =>
      fields && stored && I.Pick(s, network, role, sites, other).Some?
    case DropNetwork(id, _, _, _) => I.FindNetwork(s.networks, id).Some?
    case DropPeer(network, id) =>
      I.FindNetwork(s.networks, network).Some? && exists p :: p in s.peers && p.id == id && p.network == network
  }

  /** What a new network needs besides: a firewall that works, and no foreign interface under
      the name it will get. */
  ghost predicate RoomFor(s: I.State, r: Request, links: map<string, K.Link>, nft: N.Manager, other: I.OtherAddrs) {
    r.MakeNetwork? ==>
      && V.NeverFails(nft)
      && forall n :: n in I.Step(s, OpOf(r, true), other).networks && n !in s.networks ==> n.iface !in links
  }

  lemma NewestRoom(s: I.State, r: Request, links: map<string, K.Link>, nft: N.Manager, other: I.OtherAddrs,
                   n: I.Network)
    requires r.MakeNetwork? && RoomFor(s, r, links, nft, other) && Orderly(s) && n.id == s.nextNetwork
    requires I.Step(s, I.NewNetwork(r.subnet, r.port, true), other).networks == s.networks + [n]
    ensures V.NeverFails(nft) && n.iface !in links
  {
    hide IsValidPrivateCIDR, Apart, I.Step, V.NeverFails;
    assert n in s.networks + [n];
  }

  method ServeNetwork(w: W.Server, wg: R.Manager, nft: N.Manager, r: Request, keyOf: Keys) returns (ok: bool)
    requires r.MakeNetwork? && Orderly(w.View()) && nft.applier.Valid()
    requires wg.NoFaults() && Consistent(wg.other, w.other)
    modifies w, wg.host, nft, nft.applier
    ensures nft.applier.Valid() && Orderly(w.View()) && w.View() == I.Step(old(w.View()), OpOf(r, ok), w.other)
    ensures ok ==> Due(old(w.View()), r, w.other)
    ensures Due(old(w.View()), r, w.other) && RoomFor(old(w.View()), r, old(wg.host.links), nft, w.other) ==> ok
    ensures Together(old(w.View()), old(wg.host.links), keyOf, wg.other) ==>
              Together(w.View(), wg.host.links, keyOf, wg.other)
  {
    hide Deployable, Tracks, Orderly, I.Step, R.NewLink, Consistent, ParseNet, V.AddAll, V.Calls, V.NeverFails, RoomFor;
    ghost var done, n;
    ghost var s, before := w.View(), wg.host.links;
    ok, done, n := w.HandleCreateNetwork(wg, nft, r.subnet, r.port, r.secret, r.masq, r.interPeer, r.fields, r.stored);
    if Due(s, r, w.other) && RoomFor(s, r, before, nft, w.other) {
      NewestRoom(s, r, before, nft, w.other, I.Network(s.nextNetwork, n.iface, r.subnet, r.port));
    }
    if Together(old(w.View()), old(wg.host.links), keyOf, wg.other) {
      StepDeployable(old(w.View()), OpOf(r, ok), w.other, wg.other);
      if ok {
        var link := R.NewLink(n, ParseNet(r.subnet, wg.other).value, wg.first6);
        var row := I.Network(old(w.nextNetwork), n.iface, r.subnet, r.port);
        LinkIsEmpty(n, ParseNet(r.subnet, wg.other).value, wg.first6);
        NetworkAdded(old(w.View()), row, old(wg.host.links), link, keyOf, wg.other);
        AddedNetwork(old(w.View()), r.subnet, r.port, w.View(), w.other);
      } else {
        NotAdded(old(w.View()), r.subnet, r.port, w.other);
      }
    }
  }

  lemma LinkIsEmpty(n: R.Network, subnet: IPNet, first6: string -> string)
    ensures R.NewLink(n, subnet, first6).peers == map[]
  {
  }

  lemma NotAdded(s: I.State, subnet: string, port: int, other: I.OtherAddrs)
    ensures I.Step(s, I.NewNetwork(subnet, port, false), other) == s
  {
  }

  lemma AddedNetwork(s: I.State, subnet: string, port: int, s': I.State, other: I.OtherAddrs)
    requires s' == I.Step(s, I.NewNetwork(subnet, port, true), other) && |s'.networks| == |s.networks| + 1
    ensures s' == s.(networks := s'.networks, nextNetwork := s.nextNetwork + 1)
  {
  }

  method ServePeer(w: W.Server, wg: R.Manager, r: Request, keyOf: Keys) returns (ok: bool)
    requires r.MakePeer? && Orderly(w.View()) && wg.NoFaults() && Consistent(wg.other, w.other) && Injective(keyOf)
    modifies w, wg.host
    ensures Orderly(w.View()) && w.View() == I.Step(old(w.View()), OpOf(r, ok), w.other)
    ensures ok ==> Due(old(w.View()), r, w.other)
    ensures Together(old(w.View()), old(wg.host.links), keyOf, wg.other)
            && SitesFit(old(w.View()), OpOf(r, ok), w.other, wg.other) ==>
              Together(w.View(), wg.host.links, keyOf, wg.other) && (ok <==> Due(old(w.View()), r, w.other))
  {
    hide Deployable, Tracks, Orderly, I.Pick, I.AllowedFor, Consistent, V.PeerTried, ParseList, SitesFitAt, S.BlocksIn;
    ghost var iface;
    ghost var s, before := w.View(), wg.host.links;
    ok, iface := w.HandleCreatePeer(wg, r.network, r.role, r.sites, keyOf(w.nextPeer), r.fields, r.stored);
    if Together(s, before, keyOf, wg.other) && SitesFit(s, OpOf(r, ok), w.other, wg.other) {
      StepDeployable(s, OpOf(r, ok), w.other, wg.other);
      if Due(s, r, w.other) {
        Reachable(s, r, before, iface, keyOf, w.other, wg.other);
      }
      if !ok && forall m :: R.SameAt(before, wg.host.links, m) {
        SameLinks(s, before, wg.host.links, keyOf, wg.other);
      } else {
        var n :| n in s.networks && n.id == r.network && n.iface == iface;
        var x := I.Pick(s, r.network, r.role, r.sites, w.other).value;
        PeerAttempted(s, n, x, r.role, r.sites, before, wg.host.links, ok, keyOf, w.other, wg.other);
      }
    }
  }

  /** The device is there, and the list of the new peer parses. */
  lemma Reachable(s: I.State, r: Request, links: map<string, K.Link>, iface: string, keyOf: Keys, other: I.OtherAddrs,
                  nets: S.OtherNets)
    requires Together(s, links, keyOf, nets) && r.MakePeer? && SitesFit(s, OpOf(r, true), other, nets)
    requires Due(s, r, other) && exists n :: n in s.networks && n.id == r.network && n.iface == iface
    ensures iface in links
    ensures ParseList(I.AllowedFor(I.Pick(s, r.network, r.role, r.sites, other).value, r.role, r.sites), nets).Some?
  {
    hide Deployable, ParseList, I.AllowedFor, I.Pick, Holds;
    AllowedParses(I.Pick(s, r.network, r.role, r.sites, other).value, r.role, r.sites, nets);
  }

  method ServeDropNetwork(w: W.Server, wg: R.Manager, nft: N.Manager, r: Request, keyOf: Keys) returns (ok: bool)
    requires r.DropNetwork? && Orderly(w.View()) && nft.applier.Valid()
    requires wg.NoFaults() && Consistent(wg.other, w.other)
    modifies w, wg.host, nft, nft.applier
    ensures nft.applier.Valid() && Orderly(w.View()) && w.View() == I.Step(old(w.View()), OpOf(r, ok), w.other)
    ensures ok <==> Due(old(w.View()), r, w.other)
    ensures Together(old(w.View()), old(wg.host.links), keyOf, wg.other) ==>
              Together(w.View(), wg.host.links, keyOf, wg.other)
  {
    hide Deployable, Tracks, Orderly, Consistent, I.KeepPeers, I.KeepNetworks, V.KeysFor;
    ghost var s, before := w.View(), wg.host.links;
    ghost var gone;
    ok, gone := w.HandleDeleteNetwork(wg, nft, r.id, r.masq, r.interPeer, r.bridges, true);
    if Together(s, before, keyOf, wg.other) {
      StepDeployable(s, OpOf(r, ok), w.other, wg.other);
      if ok {
        var n := I.FindNetwork(s.networks, r.id).value;
        NetworkRemoved(s, n, before, wg.host.links, keyOf, wg.other);
      }
    }
  }

  method ServeDropPeer(w: W.Server, wg: R.Manager, r: Request, keyOf: Keys) returns (ok: bool)
    requires r.DropPeer? && Orderly(w.View()) && wg.NoFaults() && Consistent(wg.other, w.other) && Injective(keyOf)
    modifies w, wg.host
    ensures Orderly(w.View()) && w.View() == I.Step(old(w.View()), OpOf(r, ok), w.other)
    ensures ok <==> Due(old(w.View()), r, w.other)
    ensures Together(old(w.View()), old(wg.host.links), keyOf, wg.other) ==>
              Together(w.View(), wg.host.links, keyOf, wg.other)
  {
    hide Deployable, Orderly, Consistent, I.KeepPeers, Holds;
    ghost var s, before := w.View(), wg.host.links;
    ok := w.HandleDeletePeer(wg, r.network, r.id, keyOf(r.id), true);
    if Together(s, before, keyOf, wg.other) {
      StepDeployable(s, OpOf(r, ok), w.other, wg.other);
      if ok {
        var n := I.FindNetwork(s.networks, r.network).value;
        var p :| p in s.peers && p.id == r.id && p.network == r.network;
        PeerRemoved(s, n, p, before, wg.host.links, keyOf, wg.other);
      }
    }
  }

  // ----- Runs -----

  function RunFrom(s: I.State, ops: seq<I.Op>, other: I.OtherAddrs): I.State {
    if ops == [] then s else I.Step(RunFrom(s, ops[..|ops| - 1], other), ops[|ops| - 1], other)
  }

  /** At every create of the run, stored or not, the site networks fit. */
  ghost predicate FitsAll(s: I.State, ops: seq<I.Op>, other: I.OtherAddrs, nets: S.OtherNets) {
    forall i :: 0 <= i < |ops| ==> SitesFit(RunFrom(s, ops[..i], other), ops[i], other, nets)
  }

  lemma RunFromSnoc(s: I.State, ops: seq<I.Op>, op: I.Op, other: I.OtherAddrs, nets: S.OtherNets)
    ensures RunFrom(s, ops + [op], other) == I.Step(RunFrom(s, ops, other), op, other)
    ensures FitsAll(s, ops + [op], other, nets) ==>
              FitsAll(s, ops, other, nets) && SitesFit(RunFrom(s, ops, other), op, other, nets)
  {
    hide I.Step, SitesFit;
    var all := ops + [op];
    assert all[..|ops|] == ops;
    if FitsAll(s, all, other, nets) {
      forall i | 0 <= i < |ops|
        ensures SitesFit(RunFrom(s, ops[..i], other), ops[i], other, nets)
      {
        assert all[..i] == ops[..i] && all[i] == ops[i];
      }
      assert SitesFit(RunFrom(s, all[..|ops|], other), all[|ops|], other, nets);
    }
  }

  method Serve(w: W.Server, wg: R.Manager, nft: N.Manager, r: Request, keyOf: Keys) returns (ok: bool)
    requires Orderly(w.View()) && nft.applier.Valid()
    requires wg.NoFaults() && Consistent(wg.other, w.other) && Injective(keyOf)
    modifies w, wg.host, nft, nft.applier
    ensures nft.applier.Valid() && Orderly(w.View()) && w.View() == I.Step(old(w.View()), OpOf(r, ok), w.other)
    // Only what is due is done, and without a fault all of it.
    ensures ok ==> Due(old(w.View()), r, w.other)
    ensures Together(old(w.View()), old(wg.host.links), keyOf, wg.other)
            && SitesFit(old(w.View()), OpOf(r, ok), w.other, wg.other) ==>
              && Together(w.View(), wg.host.links, keyOf, wg.other)
              && (Due(old(w.View()), r, w.other) && RoomFor(old(w.View()), r, old(wg.host.links), nft, w.other) ==> ok)
  {
    hide Together, Orderly, SitesFit, I.Step, Consistent, Injective, Due, RoomFor;
    match r
    case MakeNetwork(_, _, _, _, _, _, _) => ok := ServeNetwork(w, wg, nft, r, keyOf);
    case MakePeer(_, _, _, _, _) => ok := ServePeer(w, wg, r, keyOf);
    case DropNetwork(_, _, _, _) => ok := ServeDropNetwork(w, wg, nft, r, keyOf);
    case DropPeer(_, _) => ok := ServeDropPeer(w, wg, r, keyOf);
  }

  /** Any sequence of requests, with the firewall and the inserts free to fail: if no kernel
      call fails and site networks fit, the kernel is in step with the database throughout,
      without any reconciliation. */
  method ServeAll(w: W.Server, wg: R.Manager, nft: N.Manager, rs: seq<Request>, keyOf: Keys, ghost secretOf: Keys)
    returns (ghost ops: seq<I.Op>)
    requires Orderly(w.View()) && nft.applier.Valid()
    requires wg.NoFaults() && Consistent(wg.other, w.other) && Injective(keyOf)
    requires Together(w.View(), wg.host.links, keyOf, wg.other)
    modifies w, wg.host, nft, nft.applier
    ensures |ops| == |rs| && w.View() == RunFrom(old(w.View()), ops, w.other)
    ensures forall i :: 0 <= i < |rs| ==> ops[i] == OpOf(rs[i], ops[i].rest)
    ensures FitsAll(old(w.View()), ops, w.other, wg.other) ==>
              && Together(w.View(), wg.host.links, keyOf, wg.other)
              && R.InStep(DatabaseOf(w.View(), keyOf, secretOf), wg.host.links, wg.other)
  {
    hide Deployable, Tracks, Orderly, SitesFit, I.Step, Consistent, Injective, R.InStep, OpOf;
    ghost var start := w.View();
    ops := [];
    for i := 0 to |rs|
      invariant |ops| == i && forall j :: 0 <= j < i ==> ops[j] == OpOf(rs[j], ops[j].rest)
      invariant Orderly(w.View()) && nft.applier.Valid() && w.View() == RunFrom(start, ops, w.other)
      invariant FitsAll(start, ops, w.other, wg.other) ==> Together(w.View(), wg.host.links, keyOf, wg.other)
    {
      var ok := Serve(w, wg, nft, rs[i], keyOf);
      RunFromSnoc(start, ops, OpOf(rs[i], ok), w.other, wg.other);
      OpOfRest(rs[i], ok);
      ops := ops + [OpOf(rs[i], ok)];
    }
    if FitsAll(start, ops, w.other, wg.other) {
      TracksInStep(w.View(), wg.host.links, keyOf, secretOf, wg.other);
    }
  }

  /** The empty system goes with any kernel. */
  lemma EmptyTogether(links: map<string, K.Link>, keyOf: Keys, other: I.OtherAddrs, nets: S.OtherNets)
    ensures Together(I.Empty, links, keyOf, nets)
  {
    RunKeeps([], other);
  }
}
