/**
 From the rows the handlers store to a database the reconciler can put in place: which runs
 of creates and deletes lead to one, and which do not.
 */
module Deployment {
  import opened Wrappers
  import opened Text
  import opened Cidr
  import opened Collections
  import opened Blocks
  import opened InventoryRuns
  import opened UsedHosts
  import I = Inventory
  import S = PeerSync
  import R = Reconcile
  import K = Kernel
  import P = IpPool

  // ----- What the AllowedIPs of a new peer parse to -----

  lemma {:induction false} TrimmedPartsCons(t: string, rest: seq<string>)
    ensures TrimmedParts([t] + rest) == Kept(t) + TrimmedParts(rest)
  {
    hide Kept;
    if rest == [] {
      TrimmedPartsSnoc([], t);
      assert [t] + rest == [] + [t];
    } else {
      var n := |rest| - 1;
      TrimmedPartsCons(t, rest[..n]);
      assert [t] + rest == ([t] + rest[..n]) + [rest[n]];
      TrimmedPartsSnoc([t] + rest[..n], rest[n]);
    }
  }

  lemma KeptBlank(x: string)
    ensures Kept([' '] + x) == Kept(x)
  {
    assert ([' '] + x)[1..] == x;
  }

  /** A blank before the list makes no difference. */
  lemma BlankFirst(s: string)
    ensures TrimmedParts(Split([' '] + s, ',')) == TrimmedParts(Split(s, ','))
  {
    hide TrimmedParts, Kept, Split;
    if ',' in s {
      var i := IndexOf(s, ',');
      var x, y := s[..i], s[i + 1..];
      assert s == x + [','] + y;
      assert [' '] + s == ([' '] + x) + [','] + y;
      SplitHead(x, ',', y);
      SplitHead([' '] + x, ',', y);
      TrimmedPartsCons(x, Split(y, ','));
      TrimmedPartsCons([' '] + x, Split(y, ','));
      KeptBlank(x);
    } else {
      SplitWhole(s, ',');
      SplitWhole([' '] + s, ',');
      OnePart(s);
      OnePart([' '] + s);
      KeptBlank(s);
    }
  }

  lemma OnePart(s: string)
    ensures TrimmedParts([s]) == Kept(s)
  {
    assert [s][..0] == [];
  }

  lemma {:induction false} ParsePartsCons(t: string, parts: seq<string>, nets: S.OtherNets)
    ensures ParseParts([t] + parts, nets) ==
            match (ParseNet(t, nets), ParseParts(parts, nets))
            case (Some(n), Some(ns)) => Some([n] + ns)
            case _ => None
  {
    hide ParseNet;
    if parts == [] {
      ParsePartsSnoc([], t, nets);
      assert [t] + parts == [] + [t];
      var head := ParseNet(t, nets);
      assert head.Some? ==> [] + [head.value] == [head.value] + [];
    } else {
      var n := |parts| - 1;
      ParsePartsCons(t, parts[..n], nets);
      assert [t] + parts == ([t] + parts[..n]) + [parts[n]];
      ParsePartsSnoc([t] + parts[..n], parts[n], nets);
      var head, rest, last := ParseNet(t, nets), ParseParts(parts[..n], nets), ParseNet(parts[n], nets);
      if head.Some? && rest.Some? && last.Some? {
        assert ([head.value] + rest.value) + [last.value] == [head.value] + (rest.value + [last.value]);
      }
    }
  }

  lemma HostParses(a: nat, nets: S.OtherNets)
    requires a < ADDRESSES
    ensures ParseNet(CidrText(a, 32), nets) == Some(Host(a)) && Kept(CidrText(a, 32)) == [CidrText(a, 32)]
    ensures ',' !in CidrText(a, 32)
  {
    hide CidrText, Kept;
    assert ValidNet(Host(a));
    NetRoundTrip(Host(a), nets);
    NetTextChars(Host(a));
    TrimUnspaced(NetText(Host(a)));
  }

  /** The blocks that the site networks of a new peer add to its tunnel block. */
  function SitesOf(role: string, sites: string, nets: S.OtherNets): Option<seq<IPNet>> {
    if role == "site-gateway" && sites != "" then ParseList(sites, nets) else Some([])
  }

  lemma AllowedParses(a: nat, role: string, sites: string, nets: S.OtherNets)
    requires a < ADDRESSES
    ensures ParseList(I.AllowedFor(a, role, sites), nets) ==
            match SitesOf(role, sites, nets)
            case Some(bs) => Some([Host(a)] + bs)
            case None => None
  {
    hide CidrText, Kept, ParseNet, Split, TrimmedParts, ParseParts;
    var t := CidrText(a, 32);
    HostParses(a, nets);
    if role == "site-gateway" && sites != "" {
      assert t + ", " + sites == t + [','] + ([' '] + sites);
      SplitHead(t, ',', [' '] + sites);
      TrimmedPartsCons(t, Split([' '] + sites, ','));
      BlankFirst(sites);
      ParsePartsCons(t, TrimmedParts(Split(sites, ',')), nets);
    } else {
      SplitWhole(t, ',');
      OnePart(t);
      ParsePartsCons(t, [], nets);
      NoParts(nets);
      assert [t] + [] == [t];
    }
  }

  lemma NoParts(nets: S.OtherNets)
    ensures ParseParts([], nets) == Some([])
  {
  }

  // ----- What the rows must be like -----

  ghost predicate ReadableRow(p: I.Peer, nets: S.OtherNets) {
    ParseList(p.allowedIPs, nets).Some? && NoRepeats(ParseList(p.allowedIPs, nets).value)
  }

  ghost predicate Pairwise<T(!new)>(s: seq<T>, rel: (T, T) -> bool) {
    forall i, j :: 0 <= i < j < |s| ==> rel(s[i], s[j])
  }

  function DifferentIds(p: I.Peer, q: I.Peer): bool {
    p.id != q.id
  }

  ghost function Disjoint(nets: S.OtherNets): (I.Peer, I.Peer) -> bool {
    (p: I.Peer, q: I.Peer) =>
      p.network == q.network ==> S.BlocksIn(p.allowedIPs, nets) !! S.BlocksIn(q.allowedIPs, nets)
  }

  /** Every list parses and repeats no block, and no two rows of a network share one. */
  ghost predicate Deployable(s: I.State, nets: S.OtherNets) {
    && Orderly(s)
    && (forall i :: 0 <= i < |s.peers| ==> ReadableRow(s.peers[i], nets) && s.peers[i].id < s.nextPeer)
    && Pairwise(s.peers, DifferentIds) && Pairwise(s.peers, Disjoint(nets))
  }

  /** Site networks that go with the tunnel address x: they parse, repeat no block, leave out
      x itself, and no peer of the network has one of them. */
  ghost predicate SitesFitAt(s: I.State, network: nat, x: nat, role: string, sites: string, nets: S.OtherNets) {
    match SitesOf(role, sites, nets)
    case None => false
    case Some(bs) =>
      && NoRepeats(bs) && Host(x) !in bs
      && (forall i :: 0 <= i < |s.peers| && s.peers[i].network == network ==>
            Elems(bs) !! S.BlocksIn(s.peers[i].allowedIPs, nets))
  }

  /** What can be checked before a create: its site networks go with the address it would be
      granted. */
  ghost predicate SitesFit(s: I.State, op: I.Op, other: I.OtherAddrs, nets: S.OtherNets) {
    op.NewPeer? ==>
      var x := I.Pick(s, op.network, op.role, op.sites, other);
      x.Some? ==> SitesFitAt(s, op.network, x.value, op.role, op.sites, nets)
  }

  /** A client has no site networks, so there is nothing to check. */
  lemma ClientsFit(s: I.State, network: nat, sites: string, rest: bool, other: I.OtherAddrs, nets: S.OtherNets)
    ensures SitesFit(s, I.NewPeer(network, "client", sites, rest), other, nets)
  {
    hide I.Pick;
  }

  // ----- Every step keeps it -----

  lemma {:induction false} KeepPairwise(ps: seq<I.Peer>, network: Option<nat>, id: Option<nat>,
                                        rel: (I.Peer, I.Peer) -> bool)
    requires Pairwise(ps, rel)
    ensures Pairwise(I.KeepPeers(ps, network, id), rel)
  {
    hide I.DropsPeer;
    if ps != [] {
      var k := |ps| - 1;
      KeepPairwise(ps[..k], network, id, rel);
      KeepPeersFacts(ps[..k], network, id);
      var kept := I.KeepPeers(ps[..k], network, id);
      forall i | 0 <= i < |kept|
        ensures rel(kept[i], ps[k])
      {
        assert kept[i] in kept;
        var j :| 0 <= j < k && ps[j] == kept[i];
      }
    }
  }

  lemma DropKeeps(s: I.State, kept: seq<I.Peer>, networks: seq<I.Network>, network: Option<nat>, id: Option<nat>,
                  nets: S.OtherNets)
    requires Deployable(s, nets) && kept == I.KeepPeers(s.peers, network, id)
    requires Orderly(s.(peers := kept, networks := networks))
    ensures Deployable(s.(peers := kept, networks := networks), nets)
  {
    hide Orderly, ReadableRow, I.KeepPeers, Disjoint;
    KeepPeersFacts(s.peers, network, id);
    KeepPairwise(s.peers, network, id, DifferentIds);
    KeepPairwise(s.peers, network, id, Disjoint(nets));
    forall i | 0 <= i < |kept|
      ensures ReadableRow(kept[i], nets) && kept[i].id < s.nextPeer
    {
      assert kept[i] in kept;
      var j :| 0 <= j < |s.peers| && s.peers[j] == kept[i];
    }
  }

  /** The tunnel block granted is in no list of the network's peers, because every single
      address in one was collected as used. */
  lemma TunnelBlockIsNew(s: I.State, network: nat, role: string, sites: string, i: nat, other: I.OtherAddrs,
                         nets: S.OtherNets)
    requires Orderly(s) && Consistent(nets, other) && I.Pick(s, network, role, sites, other).Some?
    requires i < |s.peers| && s.peers[i].network == network
    ensures Host(I.Pick(s, network, role, sites, other).value) !in S.BlocksIn(s.peers[i].allowedIPs, nets)
  {
    hide I.Pick, Orderly, Consistent, S.BlocksIn, PrintIPv4, I.UsedTexts, IsValidPrivateCIDR, Tunnel, P.NextFree;
    var n := PickedIsFree(s, network, role, sites, other);
    var x := I.Pick(s, network, role, sites, other).value;
    if Host(x) in S.BlocksIn(s.peers[i].allowedIPs, nets) {
      HostIsUsed(s.peers, i, x, nets, other);
      assert false;
    }
  }

  /** The row a create adds: its blocks, and when it is readable. */
  lemma NewRow(s: I.State, network: nat, x: nat, role: string, sites: string, nets: S.OtherNets)
    requires x < ADDRESSES
    ensures var p := I.Peer(s.nextPeer, network, I.AllowedFor(x, role, sites));
            var bs := SitesOf(role, sites, nets);
            && (ReadableRow(p, nets) <==> bs.Some? && NoRepeats(bs.value) && Host(x) !in bs.value)
            && S.BlocksIn(p.allowedIPs, nets) == (if bs.Some? then {Host(x)} + Elems(bs.value) else {})
  {
    hide ParseList, I.AllowedFor, SitesOf;
    AllowedParses(x, role, sites, nets);
    var bs := SitesOf(role, sites, nets);
    if bs.Some? {
      ConsRepeats(Host(x), bs.value);
    }
  }

  lemma ConsRepeats(b: IPNet, bs: seq<IPNet>)
    ensures NoRepeats([b] + bs) <==> NoRepeats(bs) && b !in bs
    ensures Elems([b] + bs) == {b} + Elems(bs)
  {
    var all := [b] + bs;
    assert forall k :: 0 <= k < |bs| ==> all[k + 1] == bs[k];
    if b in bs {
      var k :| 0 <= k < |bs| && bs[k] == b;
      assert all[0] == all[k + 1];
    }
    if NoRepeats(all) {
      forall i, j | 0 <= i < j < |bs|
        ensures bs[i] != bs[j]
      {
        assert all[i + 1] != all[j + 1];
      }
    }
  }

  /** The rows after a create are as they must be if and only if its site networks fit. */
  lemma CreateFitsExactly(s: I.State, network: nat, role: string, sites: string, other: I.OtherAddrs,
                          nets: S.OtherNets)
    requires Deployable(s, nets) && Consistent(nets, other)
    ensures Deployable(I.CreatePeer(s, network, role, sites, true, other), nets) <==>
            SitesFit(s, I.NewPeer(network, role, sites, true), other, nets)
  {
    hide I.Pick, I.AllowedFor, Consistent, Orderly, ReadableRow, S.BlocksIn, SitesOf;
    var pick := I.Pick(s, network, role, sites, other);
    IsOrderly(s, nets);
    CreatePeerKeeps(s, network, role, sites, true, other);
    if pick.Some? {
      var x := pick.value;
      var p := I.Peer(s.nextPeer, network, I.AllowedFor(x, role, sites));
      NewRow(s, network, x, role, sites, nets);
      forall i | 0 <= i < |s.peers| && s.peers[i].network == network
        ensures Host(x) !in S.BlocksIn(s.peers[i].allowedIPs, nets)
      {
        TunnelBlockIsNew(s, network, role, sites, i, other, nets);
      }
      OneMoreRow(s, p, nets);
      RowFits(s, p, x, role, sites, nets);
    }
  }

  lemma OneMoreRow(s: I.State, p: I.Peer, nets: S.OtherNets)
    requires Deployable(s, nets) && p.id == s.nextPeer
    ensures var s' := s.(peers := s.peers + [p], nextPeer := s.nextPeer + 1);
            Orderly(s') ==>
              (Deployable(s', nets) <==>
               ReadableRow(p, nets) && forall i :: 0 <= i < |s.peers| ==> Disjoint(nets)(s.peers[i], p))
  {
    hide Orderly, ReadableRow, Disjoint;
    var ps := s.peers + [p];
    assert ps[|s.peers|] == p;
    assert forall i :: 0 <= i < |s.peers| ==> ps[i] == s.peers[i];
    if Pairwise(ps, Disjoint(nets)) {
      forall i | 0 <= i < |s.peers|
        ensures Disjoint(nets)(s.peers[i], p)
      {
        assert Disjoint(nets)(ps[i], ps[|s.peers|]);
      }
    }
  }

  lemma RowFits(s: I.State, p: I.Peer, x: nat, role: string, sites: string, nets: S.OtherNets)
    requires x < ADDRESSES && p == I.Peer(s.nextPeer, p.network, I.AllowedFor(x, role, sites))
    requires forall i :: 0 <= i < |s.peers| && s.peers[i].network == p.network ==>
               Host(x) !in S.BlocksIn(s.peers[i].allowedIPs, nets)
    ensures (ReadableRow(p, nets) && forall i :: 0 <= i < |s.peers| ==> Disjoint(nets)(s.peers[i], p)) <==>
            SitesFitAt(s, p.network, x, role, sites, nets)
  {
    hide I.AllowedFor, ReadableRow, S.BlocksIn, SitesOf;
    NewRow(s, p.network, x, role, sites, nets);
    var bs := SitesOf(role, sites, nets);
    if bs.Some? {
      forall i | 0 <= i < |s.peers| && s.peers[i].network == p.network
        ensures Disjoint(nets)(s.peers[i], p) <==> Elems(bs.value) !! S.BlocksIn(s.peers[i].allowedIPs, nets)
      {
      }
    }
  }

  /** The row a successful create adds. */
  lemma CreatedPeer(s: I.State, network: nat, role: string, sites: string, rest: bool, other: I.OtherAddrs)
    returns (n: I.Network, x: nat, p: I.Peer)
    requires Orderly(s) && I.CreatePeer(s, network, role, sites, rest, other) != s
    ensures n in s.networks && n.id == network == p.network && x < ADDRESSES
    ensures I.Pick(s, network, role, sites, other) == Some(x)
    ensures p.id == s.nextPeer && p.allowedIPs == I.AllowedFor(x, role, sites)
    ensures I.CreatePeer(s, network, role, sites, rest, other) == s.(peers := s.peers + [p], nextPeer := s.nextPeer + 1)
  {
    hide I.Pick, Orderly, I.AllowedFor, IsValidPrivateCIDR;
    n := PickedIsFree(s, network, role, sites, other);
    x := I.Pick(s, network, role, sites, other).value;
    p := I.Peer(s.nextPeer, network, I.AllowedFor(x, role, sites));
  }

  lemma StepDeployable(s: I.State, op: I.Op, other: I.OtherAddrs, nets: S.OtherNets)
    requires Deployable(s, nets) && Consistent(nets, other)
    ensures Deployable(I.Step(s, op, other), nets) <==> (op.NewPeer? && op.rest ==> SitesFit(s, op, other, nets))
  {
    hide Deployable, Orderly, I.Pick, SitesFitAt, I.CreateNetwork, I.KeepPeers, I.KeepNetworks, Consistent;
    IsOrderly(s, nets);
    StepKeeps(s, op, other);
    match op
    case NewNetwork(subnet, port, rest) => NetworkAddedKeeps(s, subnet, port, rest, nets);
    case NewPeer(network, role, sites, rest) =>
      if rest {
        CreateFitsExactly(s, network, role, sites, other, nets);
      }
    case DropNetwork(id, rest) =>
      if I.Step(s, op, other) != s {
        DropKeeps(s, I.KeepPeers(s.peers, Some(id), None), I.KeepNetworks(s.networks, id), Some(id), None, nets);
      }
    case DropPeer(network, id, rest) =>
      if I.Step(s, op, other) != s {
        DropKeeps(s, I.KeepPeers(s.peers, None, Some(id)), s.networks, None, Some(id), nets);
      }
  }

  lemma NetworkAddedKeeps(s: I.State, subnet: string, port: int, rest: bool, nets: S.OtherNets)
    requires Deployable(s, nets) && Orderly(I.CreateNetwork(s, subnet, port, rest))
    ensures Deployable(I.CreateNetwork(s, subnet, port, rest), nets)
  {
    hide Orderly, IsValidPrivateCIDR, ParseCIDR4, I.SubnetTaken, I.PortTaken;
  }

  lemma IsOrderly(s: I.State, nets: S.OtherNets)
    requires Deployable(s, nets)
    ensures Orderly(s)
  {
  }

  /** Every peer of the run is created with site networks that fit at that point. */
  ghost predicate Fitting(ops: seq<I.Op>, other: I.OtherAddrs, nets: S.OtherNets) {
    forall i :: 0 <= i < |ops| && ops[i].NewPeer? && ops[i].rest ==>
      SitesFit(I.Run(ops[..i], other), ops[i], other, nets)
  }

  lemma {:induction false} RunDeployable(ops: seq<I.Op>, other: I.OtherAddrs, nets: S.OtherNets)
    requires Fitting(ops, other, nets) && Consistent(nets, other)
    ensures Deployable(I.Run(ops, other), nets)
  {
    hide SitesFit, I.Step, Orderly, Consistent;
    RunKeeps(ops, other);
    if ops != [] {
      var n := |ops| - 1;
      forall i | 0 <= i < n && ops[i].NewPeer? && ops[i].rest
        ensures SitesFit(I.Run(ops[..n][..i], other), ops[..n][i], other, nets)
      {
        assert ops[..n][..i] == ops[..i];
      }
      RunDeployable(ops[..n], other, nets);
      StepDeployable(I.Run(ops[..n], other), ops[n], other, nets);
    }
  }

  /** The rows are as they must be after every step of a run if and only if site networks fit
      at every create. */
  lemma DeployableExactly(ops: seq<I.Op>, other: I.OtherAddrs, nets: S.OtherNets)
    requires Consistent(nets, other)
    ensures Fitting(ops, other, nets) <==> forall k :: 0 <= k <= |ops| ==> Deployable(I.Run(ops[..k], other), nets)
  {
    hide SitesFit, I.Step, Deployable, Consistent, I.Run;
    if Fitting(ops, other, nets) {
      forall k | 0 <= k <= |ops|
        ensures Deployable(I.Run(ops[..k], other), nets)
      {
        forall i | 0 <= i < k && ops[i].NewPeer? && ops[i].rest
          ensures SitesFit(I.Run(ops[..k][..i], other), ops[..k][i], other, nets)
        {
          assert ops[..k][..i] == ops[..i];
        }
        RunDeployable(ops[..k], other, nets);
      }
    }
    if forall k :: 0 <= k <= |ops| ==> Deployable(I.Run(ops[..k], other), nets) {
      forall i | 0 <= i < |ops| && ops[i].NewPeer? && ops[i].rest
        ensures SitesFit(I.Run(ops[..i], other), ops[i], other, nets)
      {
        assert ops[..i + 1][..i] == ops[..i];
        OneMoreStep(ops, i, other);
        StepDeployable(I.Run(ops[..i], other), ops[i], other, nets);
      }
    }
  }

  lemma OneMoreStep(ops: seq<I.Op>, i: nat, other: I.OtherAddrs)
    requires i < |ops|
    ensures I.Run(ops[..i + 1], other) == I.Step(I.Run(ops[..i], other), ops[i], other)
  {
    hide I.Step;
    assert ops[..i + 1][..i] == ops[..i];
  }

  // ----- The database the rows make -----

  /** A peer row as the reconciler reads it; `keyOf` gives the public key of a row. */
  function Row(p: I.Peer, keyOf: nat -> string): S.Peer {
    S.Peer(keyOf(p.id), p.allowedIPs, true)
  }

  function RowsOf(ps: seq<I.Peer>, network: nat, keyOf: nat -> string): seq<S.Peer> {
    if ps == [] then []
    else
      var p := ps[|ps| - 1];
      RowsOf(ps[..|ps| - 1], network, keyOf) + (if p.network == network then [Row(p, keyOf)] else [])
  }

  function NetworkRow(n: I.Network, secretOf: nat -> string): R.Network {
    R.Network(n.id, n.iface, n.subnet, n.port, secretOf(n.id), true)
  }

  function DatabaseOf(s: I.State, keyOf: nat -> string, secretOf: nat -> string): R.Database {
    R.Database(seq(|s.networks|, i requires 0 <= i < |s.networks| => NetworkRow(s.networks[i], secretOf)),
               map n | n in s.networks :: n.id := RowsOf(s.peers, n.id, keyOf))
  }

  ghost predicate Injective(keyOf: nat -> string) {
    forall a: nat, b: nat :: keyOf(a) == keyOf(b) ==> a == b
  }

  /** Row a comes from some peer ... */
  lemma {:induction false} RowFrom(ps: seq<I.Peer>, network: nat, keyOf: nat -> string, a: nat) returns (i: nat)
    requires a < |RowsOf(ps, network, keyOf)|
    ensures i < |ps| && ps[i].network == network && RowsOf(ps, network, keyOf)[a] == Row(ps[i], keyOf)
  {
    var n := |ps| - 1;
    if a < |RowsOf(ps[..n], network, keyOf)| {
      i := RowFrom(ps[..n], network, keyOf, a);
    } else {
      i := n;
    }
  }

  /** ... and two rows from two peers, in order. */
  lemma {:induction false} RowsFrom(ps: seq<I.Peer>, network: nat, keyOf: nat -> string, a: nat, b: nat)
    returns (i: nat, j: nat)
    requires a < b < |RowsOf(ps, network, keyOf)|
    ensures i < j < |ps| && ps[i].network == ps[j].network == network
    ensures RowsOf(ps, network, keyOf)[a] == Row(ps[i], keyOf) && RowsOf(ps, network, keyOf)[b] == Row(ps[j], keyOf)
  {
    var n := |ps| - 1;
    if b < |RowsOf(ps[..n], network, keyOf)| {
      i, j := RowsFrom(ps[..n], network, keyOf, a, b);
    } else {
      i := RowFrom(ps[..n], network, keyOf, a);
      j := n;
    }
  }

  lemma RowsWellFormed(s: I.State, network: nat, keyOf: nat -> string, nets: S.OtherNets)
    requires Deployable(s, nets) && Injective(keyOf)
    ensures S.WellFormed(RowsOf(s.peers, network, keyOf), nets)
  {
    hide RowsOf, Orderly, ParseList;
    var rows := RowsOf(s.peers, network, keyOf);
    forall a, b | 0 <= a < b < |rows|
      ensures rows[a].key != rows[b].key && S.Blocks(rows[a], nets) !! S.Blocks(rows[b], nets)
    {
      var i, j := RowsFrom(s.peers, network, keyOf, a, b);
      assert DifferentIds(s.peers[i], s.peers[j]) && Disjoint(nets)(s.peers[i], s.peers[j]);
    }
    forall a | 0 <= a < |rows|
      ensures S.Readable(rows[a], nets)
    {
      var i := RowFrom(s.peers, network, keyOf, a);
      assert ReadableRow(s.peers[i], nets);
    }
  }

  lemma ValidSubnetParses(subnet: string, nets: S.OtherNets)
    requires IsValidPrivateCIDR(subnet)
    ensures ParseNet(subnet, nets).Some?
  {
  }

  /** Such rows make a database that the reconciler can put in place. */
  lemma DeployableDatabase(s: I.State, keyOf: nat -> string, secretOf: nat -> string, nets: S.OtherNets)
    requires Deployable(s, nets) && Injective(keyOf)
    ensures R.DistinctIfaces(DatabaseOf(s, keyOf, secretOf)) && R.DatabaseOk(DatabaseOf(s, keyOf, secretOf), nets)
  {
    hide RowsOf, IsValidPrivateCIDR, ParseNet, S.WellFormed;
    var db := DatabaseOf(s, keyOf, secretOf);
    assert NetworksOk(s.networks, s.nextNetwork);
    forall i, j | 0 <= i < j < |db.networks|
      ensures db.networks[i].iface != db.networks[j].iface
    {
      assert Apart(s.networks[i], s.networks[j]);
    }
    forall n | n in db.networks
      ensures R.NetworkOk(db, n, nets)
    {
      var i :| 0 <= i < |db.networks| && db.networks[i] == n;
      ValidSubnetParses(n.subnet, nets);
      assert s.networks[i] in s.networks;
      SameRows(s, keyOf, secretOf, s.networks[i]);
      RowsWellFormed(s, n.id, keyOf, nets);
    }
  }

  lemma SameRows(s: I.State, keyOf: nat -> string, secretOf: nat -> string, n: I.Network)
    requires n in s.networks
    ensures R.PeersOf(DatabaseOf(s, keyOf, secretOf), n.id) == RowsOf(s.peers, n.id, keyOf)
  {
    hide RowsOf;
  }

  /** After every run in which gateways are created with site networks that fit, and so after
      every run that creates clients only, one reconciliation from any kernel state brings
      the kernel in step. */
  method Deploy(m: R.Manager, ops: seq<I.Op>, other: I.OtherAddrs, keyOf: nat -> string, secretOf: nat -> string)
    requires Fitting(ops, other, m.other) && Consistent(m.other, other) && Injective(keyOf)
    requires Lawful(m.other) && K.ValidLinks(m.host.links)
    modifies m.host
    ensures m.NoFaults() ==> R.InStep(DatabaseOf(I.Run(ops, other), keyOf, secretOf), m.host.links, m.other)
    ensures m.NoFaults() ==>
              forall n :: n in I.Run(ops, other).networks ==>
                && n.iface in m.host.links
                && (n.iface !in old(m.host.links) ==>
                      var link := m.host.links[n.iface];
                      link.port == n.port && link.privateKey == secretOf(n.id) && link.up)
  {
    var db := DatabaseOf(I.Run(ops, other), keyOf, secretOf);
    RunDeployable(ops, other, m.other);
    DeployableDatabase(I.Run(ops, other), keyOf, secretOf, m.other);
    var _ := m.Reconcile(db);
    if m.NoFaults() {
      forall n | n in I.Run(ops, other).networks
        ensures n.iface in m.host.links
        ensures n.iface !in old(m.host.links) ==>
                  var link := m.host.links[n.iface];
                  link.port == n.port && link.privateKey == secretOf(n.id) && link.up
      {
        StoredRow(I.Run(ops, other), n, keyOf, secretOf);
        SetUp(db, NetworkRow(n, secretOf), old(m.host.links), m.host.links, m.other, m.first6);
      }
    }
  }

  lemma StoredRow(s: I.State, n: I.Network, keyOf: nat -> string, secretOf: nat -> string)
    requires n in s.networks
    ensures NetworkRow(n, secretOf) in DatabaseOf(s, keyOf, secretOf).networks
  {
    var i :| 0 <= i < |s.networks| && s.networks[i] == n;
    assert DatabaseOf(s, keyOf, secretOf).networks[i] == NetworkRow(n, secretOf);
  }

  lemma SetUp(db: R.Database, n: R.Network, before: map<string, K.Link>, after: map<string, K.Link>,
              nets: S.OtherNets, first6: string -> string)
    requires n in db.networks && n.enabled && R.NetworkOk(db, n, nets)
    requires R.NetworkDone(db, n, after, nets) && R.NetworkMade(n, before, after, nets, first6)
    ensures n.iface in after
    ensures n.iface !in before ==>
              after[n.iface].port == n.port && after[n.iface].privateKey == n.privateKey && after[n.iface].up
  {
    hide ParseNet, S.WellFormed, S.Agrees, R.ServerAddress;
  }
}
