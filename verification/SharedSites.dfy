/** Site networks that do not fit: what two gateways with the same ones lead to. */
module SharedSites {
  import opened Wrappers
  import opened Arith
  import opened Text
  import opened Cidr
  import opened Blocks
  import opened InventoryRuns
  import opened UsedHosts
  import opened Deployment
  import opened Sample
  import I = Inventory
  import S = PeerSync
  import E = PeerExact
  import K = Kernel

  lemma RowIn(ps: seq<I.Peer>, p: I.Peer, network: nat, keyOf: nat -> string)
    ensures p.network == network ==>
              RowsOf(ps + [p], network, keyOf) == RowsOf(ps, network, keyOf) + [Row(p, keyOf)]
  {
    assert (ps + [p])[..|ps|] == ps;
  }

  /** Two gateways of one network with the same site networks: whatever the kernel holds, no
      sequence of calls makes it agree with their rows. */
  lemma SharedSitesNeverSettle(s: I.State, network: nat, sites: string, other: I.OtherAddrs, nets: S.OtherNets,
                               keyOf: nat -> string, ps: K.Peers, cs: seq<K.PeerCfg>)
    requires Orderly(s) && Injective(keyOf) && sites != "" && E.SingleOwner(ps)
    requires ParseList(sites, nets).Some? && ParseList(sites, nets).value != []
    requires var s1 := I.CreatePeer(s, network, "site-gateway", sites, true, other);
             var s2 := I.CreatePeer(s1, network, "site-gateway", sites, true, other);
             && s1 != s && s2 != s1 && S.DistinctKeys(RowsOf(s2.peers, network, keyOf))
    ensures var s1 := I.CreatePeer(s, network, "site-gateway", sites, true, other);
            var s2 := I.CreatePeer(s1, network, "site-gateway", sites, true, other);
            !S.Agrees(K.ApplyPeers(ps, cs), RowsOf(s2.peers, network, keyOf), nets)
  {
    hide Orderly, I.CreatePeer, I.AllowedFor, ParseList, RowsOf, Tunnel, Housed, IsValidPrivateCIDR, K.ApplyPeers,
         S.Agrees;
    var s1 := I.CreatePeer(s, network, "site-gateway", sites, true, other);
    CreatePeerKeeps(s, network, "site-gateway", sites, true, other);
    var n, x, p := CreatedPeer(s, network, "site-gateway", sites, true, other);
    var m, y, q := CreatedPeer(s1, network, "site-gateway", sites, true, other);
    AllowedParses(x, "site-gateway", sites, nets);
    AllowedParses(y, "site-gateway", sites, nets);
    RowIn(s.peers, p, network, keyOf);
    RowIn(s1.peers, q, network, keyOf);
    var rows := RowsOf(s1.peers + [q], network, keyOf);
    var b := ParseList(sites, nets).value[0];
    SharedBlock(Row(p, keyOf), Row(q, keyOf), b, x, y, ParseList(sites, nets).value, nets);
    assert rows[|rows| - 1] == Row(q, keyOf) && rows[|rows| - 2] == Row(p, keyOf);
    E.ApplyKeepsOwners(ps, cs);
    E.SharedNeverAgrees(K.ApplyPeers(ps, cs), rows, nets);
  }

  lemma SharedBlock(p: S.Peer, q: S.Peer, b: IPNet, x: nat, y: nat, bs: seq<IPNet>, nets: S.OtherNets)
    requires ParseList(p.allowedIPs, nets) == Some([Host(x)] + bs)
    requires ParseList(q.allowedIPs, nets) == Some([Host(y)] + bs)
    requires b in bs
    ensures b in S.Blocks(p, nets) && b in S.Blocks(q, nets)
  {
    hide ParseList;
  }

  // ----- A run that does so -----

  const SITE: nat := 0xC0A8_0500

  function Gateway(): I.Op {
    I.NewPeer(1, "site-gateway", CidrText(SITE, 24), true)
  }

  lemma SiteIsBlock()
    ensures ValidNet(V4(SITE, 24))
  {
    assert Pow2(8) == 256;
  }

  /** The site network is one plain part of a list. */
  lemma SiteReads(other: I.OtherAddrs)
    ensures var t := CidrText(SITE, 24);
            && t != "" && ',' !in t && Split(t, ',') == [t]
            && I.AddrText(t, other) == Some(PrintIPv4(SITE)) && I.AddrText([' '] + t, other) == Some(PrintIPv4(SITE))
            && I.ValidRole("site-gateway", t, other)
  {
    hide CidrText, PrintIPv4, ParseCIDR4, Split;
    var t := CidrText(SITE, 24);
    SiteIsBlock();
    NetTextChars(V4(SITE, 24));
    Cidr4RoundTrip(SITE, 24);
    SiteUnspaced();
    TrimSpaceUnspaced(t);
    TrimBlank(t);
    SplitWhole(t, ',');
  }

  lemma SiteUnspaced()
    ensures Unspaced(CidrText(SITE, 24))
  {
    PrintIPv4Dotted(SITE);
    var t := CidrText(SITE, 24);
    assert t[0] == PrintIPv4(SITE)[0] && PrintIPv4(SITE)[0] in PrintIPv4(SITE);
    assert t[|t| - 1] == Decimal(24)[|Decimal(24)| - 1];
  }

  lemma TrimBlank(t: string)
    requires t != "" && Unspaced(t)
    ensures TrimSpace([' '] + t) == t
  {
    var u := [' '] + t;
    StripAt(u, 1, |u|, IsSpace);
    assert u[1..] == t;
  }

  lemma TwoParts(x: nat)
    requires x < ADDRESSES
    ensures Split(I.AllowedFor(x, "site-gateway", CidrText(SITE, 24)), ',')
         == [CidrText(x, 32), [' '] + CidrText(SITE, 24)]
  {
    hide CidrText, Split;
    var t, u := CidrText(x, 32), CidrText(SITE, 24);
    CidrTextPlain(x);
    SiteReads(_ => None);
    CommaBlank(t, u);
  }

  lemma CommaBlank(t: string, u: string)
    requires ',' !in t && ',' !in u
    ensures Split(t + ", " + u, ',') == [t, [' '] + u]
  {
    hide Split;
    assert t + ", " + u == t + [','] + ([' '] + u);
    SplitHead(t, ',', [' '] + u);
    SplitWhole([' '] + u, ',');
  }

  /** One gateway uses its tunnel address and the written address of its site network. */
  lemma GatewayUses(p: I.Peer, x: nat, other: I.OtherAddrs)
    requires x < ADDRESSES && p.network == 1 && p.allowedIPs == I.AllowedFor(x, "site-gateway", CidrText(SITE, 24))
    ensures I.UsedTexts([p], 1, other) == {PrintIPv4(x), PrintIPv4(SITE)}
  {
    hide CidrText, PrintIPv4, ParseCIDR4, Split, I.AllowedFor;
    TwoParts(x);
    SiteReads(other);
    CidrTextPlain(x);
    TrimSpaceUnspaced(CidrText(x, 32));
    Cidr4RoundTrip(x, 32);
    assert I.AddrText(CidrText(x, 32), other) == Some(PrintIPv4(x));
    var parts := [CidrText(x, 32), [' '] + CidrText(SITE, 24)];
    assert parts[..1] == [CidrText(x, 32)] && parts[..1][..0] == [];
    assert I.PartTexts(parts[..1], other) == {PrintIPv4(x)};
    assert I.PartTexts(parts, other) == {PrintIPv4(x)} + {PrintIPv4(SITE)};
    assert [p][..0] == [];
    assert I.UsedTexts([p], 1, other) == {} + I.PartTexts(parts, other);
  }

  lemma GatewayStep(s: I.State, x: nat, other: I.OtherAddrs)
    requires I.Pick(s, 1, "site-gateway", CidrText(SITE, 24), other) == Some(x)
    ensures I.Step(s, Gateway(), other) == I.AddRow(s, 1, I.AllowedFor(x, "site-gateway", CidrText(SITE, 24)))
  {
    hide I.Pick, CidrText, I.AllowedFor;
  }

  function GatewayRow(id: nat, x: nat): I.Peer
    requires x < ADDRESSES
  {
    I.Peer(id, 1, I.AllowedFor(x, "site-gateway", CidrText(SITE, 24)))
  }

  lemma FirstGateway(other: I.OtherAddrs)
    ensures var s := I.Step(I.Step(I.Empty, Create(), other), Gateway(), other);
            Orderly(s) && Single(s) && s.peers == [GatewayRow(1, NET + 2)] && s.nextPeer == 2
  {
    hide CidrText, PrintIPv4, I.UsedTexts, I.AllowedFor, I.Pick, Orderly, Subnet, I.ValidRole, I.Run, I.CreateNetwork;
    Created(other);
    SiteReads(other);
    NoRows(other);
    var s1 := I.Step(I.Empty, Create(), other);
    PickIn(s1, "site-gateway", CidrText(SITE, 24), other, NET + 2);
    GatewayStep(s1, NET + 2, other);
    CreatePeerKeeps(s1, 1, "site-gateway", CidrText(SITE, 24), true, other);
  }

  lemma SecondGateway(s: I.State, other: I.OtherAddrs)
    requires Orderly(s) && Single(s) && s.peers == [GatewayRow(1, NET + 2)] && s.nextPeer == 2
    ensures I.Step(s, Gateway(), other).peers == [GatewayRow(1, NET + 2), GatewayRow(2, NET + 3)]
  {
    hide CidrText, PrintIPv4, I.UsedTexts, I.AllowedFor, I.Pick, Orderly, Subnet, I.ValidRole;
    SiteReads(other);
    GatewayUses(s.peers[0], NET + 2, other);
    FreeText(NET + 3, NET + 2);
    PickIn(s, "site-gateway", CidrText(SITE, 24), other, NET + 3);
    GatewayStep(s, NET + 3, other);
  }

  /** Two creates in a row, each answered with success, after which two rows of one network
      claim the same block. */
  lemma SharedSitesRun(other: I.OtherAddrs, nets: S.OtherNets)
    ensures var s := I.Run([Create(), Gateway(), Gateway()], other);
            && |s.peers| == 2 && s.peers[0].network == s.peers[1].network == 1
            && V4(SITE, 24) in S.BlocksIn(s.peers[0].allowedIPs, nets)
            && V4(SITE, 24) in S.BlocksIn(s.peers[1].allowedIPs, nets)
  {
    hide CidrText, I.AllowedFor, Orderly, S.BlocksIn, Create, Gateway, I.Run, I.Step, Single;
    ThreeSteps(Create(), Gateway(), Gateway(), other);
    FirstGateway(other);
    SecondGateway(I.Step(I.Step(I.Empty, Create(), other), Gateway(), other), other);
    SiteBlock(GatewayRow(1, NET + 2), NET + 2, nets);
    SiteBlock(GatewayRow(2, NET + 3), NET + 3, nets);
  }

  lemma ThreeSteps(a: I.Op, b: I.Op, c: I.Op, other: I.OtherAddrs)
    ensures I.Run([a, b, c], other) == I.Step(I.Step(I.Step(I.Empty, a, other), b, other), c, other)
  {
    hide I.Step;
    OneMoreStep([a, b, c], 0, other);
    OneMoreStep([a, b, c], 1, other);
    OneMoreStep([a, b, c], 2, other);
    assert [a, b, c][..0] == [] && [a, b, c][..3] == [a, b, c];
  }

  lemma NoRows(other: I.OtherAddrs)
    ensures I.UsedTexts([], 1, other) == {}
  {
  }

  lemma FreeText(free: nat, x: nat)
    requires free < ADDRESSES && x < ADDRESSES && free != x && free != SITE
    ensures PrintIPv4(free) !in {PrintIPv4(x), PrintIPv4(SITE)}
  {
    if PrintIPv4(free) == PrintIPv4(x) {
      PrintIPv4Injective(free, x);
    }
    if PrintIPv4(free) == PrintIPv4(SITE) {
      PrintIPv4Injective(free, SITE);
    }
  }

  lemma SiteBlock(p: I.Peer, x: nat, nets: S.OtherNets)
    requires x < ADDRESSES && p.allowedIPs == I.AllowedFor(x, "site-gateway", CidrText(SITE, 24))
    ensures V4(SITE, 24) in S.BlocksIn(p.allowedIPs, nets)
  {
    hide CidrText, ParseNet, I.AllowedFor, ParseParts, TrimmedParts, Split;
    var t := CidrText(SITE, 24);
    AllowedParses(x, "site-gateway", t, nets);
    SiteIsBlock();
    NetRoundTrip(V4(SITE, 24), nets);
    NetTextChars(V4(SITE, 24));
    AppendPart("", NetText(V4(SITE, 24)));
    ParsePartsCons(t, [], nets);
    NoParts(nets);
    assert [t] + [] == [t];
  }
}
