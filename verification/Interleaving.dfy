/**
 Peer creation as two steps with no lock between them: one lists the peers and picks an
 address, the other stores the row.  Other handlers may run in between.
 */
module Interleaving {
  import opened Wrappers
  import opened Cidr
  import opened Blocks
  import opened Inventory
  import opened InventoryRuns
  import opened Sample

  /** A create that has picked its address and not yet stored its row. */
  datatype Pending = Pending(network: nat, addr: nat, role: string, sites: string)

  datatype Shared = Shared(rows: State, pending: map<nat, Pending>)

  datatype Event =
    | Whole(op: Op)
    | Begin(token: nat, network: nat, role: string, sites: string)
    | Commit(token: nat, rest: bool)

  /** The second half; the foreign key refuses a row whose network has gone. */
  function Store(s: State, q: Pending, rest: bool): State {
    if rest && FindNetwork(s.networks, q.network).Some? && q.addr < ADDRESSES
    then AddRow(s, q.network, AllowedFor(q.addr, q.role, q.sites))
    else s
  }

  function Next(s: Shared, e: Event, other: OtherAddrs): Shared {
    match e
    case Whole(op) => s.(rows := Step(s.rows, op, other))
    case Begin(token, network, role, sites) =>
      var x := Pick(s.rows, network, role, sites, other);
      if token in s.pending || x.None? then s
      else s.(pending := s.pending[token := Pending(network, x.value, role, sites)])
    case Commit(token, rest) =>
      if token !in s.pending then s else Shared(Store(s.rows, s.pending[token], rest), s.pending - {token})
  }

  function History(es: seq<Event>, other: OtherAddrs): Shared {
    if es == [] then Shared(Empty, map[]) else Next(History(es[..|es| - 1], other), es[|es| - 1], other)
  }

  lemma HistorySnoc(es: seq<Event>, e: Event, other: OtherAddrs)
    ensures History(es + [e], other) == Next(History(es, other), e, other)
  {
    assert (es + [e])[..|es|] == es;
  }

  /** A create in one step is a pick and a store. */
  lemma CreateIsStore(s: State, network: nat, role: string, sites: string, rest: bool, other: OtherAddrs)
    ensures var x := Pick(s, network, role, sites, other);
            CreatePeer(s, network, role, sites, rest, other) ==
              if x.Some? then Store(s, Pending(network, x.value, role, sites), rest) else s
  {
    hide ValidRole, Granted, AllowedFor, ParseCIDR4;
  }

  /** With nothing in between, the two halves are the create in one step. */
  lemma HalvesMakeCreate(s: Shared, token: nat, network: nat, role: string, sites: string, rest: bool,
                         other: OtherAddrs)
    requires token !in s.pending
    ensures var s' := Next(Next(s, Begin(token, network, role, sites), other), Commit(token, rest), other);
            s'.pending == s.pending && s'.rows == CreatePeer(s.rows, network, role, sites, rest, other)
  {
    hide Pick, Store, CreatePeer;
    CreateIsStore(s.rows, network, role, sites, rest, other);
    var s1 := Next(s, Begin(token, network, role, sites), other);
    if s1 != s {
      assert s1.pending - {token} == s.pending;
    } else {
      NoPickNoRow(s.rows, network, role, sites, rest, other);
    }
  }

  lemma NoPickNoRow(s: State, network: nat, role: string, sites: string, rest: bool, other: OtherAddrs)
    requires Pick(s, network, role, sites, other).None?
    ensures CreatePeer(s, network, role, sites, rest, other) == s
  {
  }

  // ----- What a pick must avoid -----

  ghost predicate FreeOfPending(s: Shared, network: nat, x: Option<nat>) {
    x.Some? ==> forall t :: t in s.pending && s.pending[t].network == network ==> s.pending[t].addr != x.value
  }

  /** The event picks no address that another create of the network has picked and not yet
      stored.  It can be told when the pick is made. */
  ghost predicate Avoids(s: Shared, e: Event, other: OtherAddrs) {
    match e
    case Begin(token, network, role, sites) =>
      token in s.pending || FreeOfPending(s, network, Pick(s.rows, network, role, sites, other))
    case Whole(NewPeer(network, role, sites, rest)) =>
      rest ==> FreeOfPending(s, network, Pick(s.rows, network, role, sites, other))
    case _ => true
  }

  ghost predicate AllAvoid(es: seq<Event>, other: OtherAddrs) {
    forall k :: 0 <= k < |es| ==> Avoids(History(es[..k], other), es[k], other)
  }

  /** The address picked is still free in its network, if that is still there. */
  ghost predicate StillFree(s: State, q: Pending) {
    && q.addr < ADDRESSES && q.network < s.nextNetwork
    && (forall n :: n in s.networks && n.id == q.network ==>
          IsValidPrivateCIDR(n.subnet) && Base(n) + 2 <= q.addr && q.addr + 1 < End(n))
    && (forall i :: 0 <= i < |s.peers| && s.peers[i].network == q.network ==>
          Tunnel(s.peers[i].allowedIPs) != Some(q.addr))
  }

  predicate Differ(q: Pending, r: Pending) {
    q.network != r.network || q.addr != r.addr
  }

  ghost predicate Sound(s: Shared) {
    && Orderly(s.rows)
    && (forall t :: t in s.pending ==> StillFree(s.rows, s.pending[t]))
    && (forall t, u :: t in s.pending && u in s.pending && t != u ==> Differ(s.pending[t], s.pending[u]))
  }

  // ----- Picks that avoid each other -----

  lemma PickIsFree(s: State, network: nat, role: string, sites: string, other: OtherAddrs)
    requires Orderly(s) && Pick(s, network, role, sites, other).Some?
    ensures StillFree(s, Pending(network, Pick(s, network, role, sites, other).value, role, sites))
  {
    hide Pick, IsValidPrivateCIDR, Tunnel, Orderly, Taken;
    var n := PickedIsFree(s, network, role, sites, other);
    IdBelow(s, n);
    forall m | m in s.networks && m.id == network
      ensures m == n
    {
      OneById(s, m, n);
    }
  }

  lemma IdBelow(s: State, n: Network)
    requires Orderly(s) && n in s.networks
    ensures n.id < s.nextNetwork
  {
    hide IsValidPrivateCIDR, Apart;
  }

  lemma StoreKeeps(s: State, q: Pending, rest: bool)
    requires Orderly(s) && StillFree(s, q)
    ensures Orderly(Store(s, q, rest))
  {
    hide AllowedFor, IsValidPrivateCIDR, Tunnel, NetworksOk, PeersHoused;
    var s' := Store(s, q, rest);
    if s' != s {
      var n := FindNetwork(s.networks, q.network).value;
      var p := Peer(s.nextPeer, q.network, AllowedFor(q.addr, q.role, q.sites));
      AllowedForTunnel(q.addr, q.role, q.sites);
      assert Housed(p, n);
      HousedOneMore(s.peers, p, s.networks, n);
      assert s'.peers == s.peers + [p];
    }
  }

  /** A row leaves the picks that differ from it free. */
  lemma StoreElsewhere(s: State, q: Pending, rest: bool, r: Pending)
    requires StillFree(s, r) && Differ(q, r)
    ensures StillFree(Store(s, q, rest), r)
  {
    hide Tunnel, IsValidPrivateCIDR, AllowedFor;
    if q.addr < ADDRESSES {
      AllowedForTunnel(q.addr, q.role, q.sites);
    }
  }

  /** Nor do the other handlers take a pick away. */
  lemma WholeLeavesFree(s: State, op: Op, q: Pending, other: OtherAddrs)
    requires Orderly(s) && StillFree(s, q) && !op.NewPeer?
    ensures StillFree(Step(s, op, other), q)
  {
    hide Tunnel, IsValidPrivateCIDR, ParseCIDR4, SubnetTaken, PortTaken, KeepPeers, KeepNetworks, Orderly;
    match op
    case DropNetwork(id, rest) =>
      KeepNetworksFacts(s.networks, id);
      KeepPeersFacts(s.peers, Some(id), None);
      FewerPeers(s, KeepPeers(s.peers, Some(id), None), q);
    case DropPeer(network, id, rest) =>
      KeepPeersFacts(s.peers, None, Some(id));
      FewerPeers(s, KeepPeers(s.peers, None, Some(id)), q);
    case _ =>
  }

  lemma FewerPeers(s: State, kept: seq<Peer>, q: Pending)
    requires StillFree(s, q) && forall p :: p in kept ==> p in s.peers
    ensures forall i :: 0 <= i < |kept| && kept[i].network == q.network ==> Tunnel(kept[i].allowedIPs) != Some(q.addr)
  {
    hide Tunnel, IsValidPrivateCIDR;
    forall i | 0 <= i < |kept| && kept[i].network == q.network
      ensures Tunnel(kept[i].allowedIPs) != Some(q.addr)
    {
      assert kept[i] in kept;
      var j :| 0 <= j < |s.peers| && s.peers[j] == kept[i];
    }
  }

  lemma WholeSound(s: Shared, op: Op, other: OtherAddrs)
    requires Sound(s) && Avoids(s, Whole(op), other)
    ensures Sound(Next(s, Whole(op), other))
  {
    hide Orderly, StillFree, Store, Pick, CreatePeer, CreateNetwork, DeleteNetwork, DeletePeer;
    StepKeeps(s.rows, op, other);
    if op.NewPeer? {
      CreateIsStore(s.rows, op.network, op.role, op.sites, op.rest, other);
    }
    forall t | t in s.pending
      ensures StillFree(Step(s.rows, op, other), s.pending[t])
    {
      if !op.NewPeer? {
        WholeLeavesFree(s.rows, op, s.pending[t], other);
      } else if op.rest && Pick(s.rows, op.network, op.role, op.sites, other).Some? {
        var x := Pick(s.rows, op.network, op.role, op.sites, other).value;
        StoreElsewhere(s.rows, Pending(op.network, x, op.role, op.sites), op.rest, s.pending[t]);
      } else {
        NotStored(s.rows, op, other);
      }
    }
  }

  lemma NotStored(s: State, op: Op, other: OtherAddrs)
    requires op.NewPeer? && (!op.rest || Pick(s, op.network, op.role, op.sites, other).None?)
    ensures Step(s, op, other) == s
  {
  }

  lemma NextSound(s: Shared, e: Event, other: OtherAddrs)
    requires Sound(s) && Avoids(s, e, other)
    ensures Sound(Next(s, e, other))
  {
    hide Orderly, StillFree, Store, Pick;
    match e
    case Whole(op) =>
      WholeSound(s, op, other);
    case Begin(token, network, role, sites) =>
      if token !in s.pending && Pick(s.rows, network, role, sites, other).Some? {
        PickIsFree(s.rows, network, role, sites, other);
      }
    case Commit(token, rest) =>
      if token in s.pending {
        var q := s.pending[token];
        StoreKeeps(s.rows, q, rest);
        forall t | t in s.pending && t != token
          ensures StillFree(Store(s.rows, q, rest), s.pending[t])
        {
          StoreElsewhere(s.rows, q, rest, s.pending[t]);
        }
      }
  }

  lemma {:induction false} HistorySound(es: seq<Event>, other: OtherAddrs)
    requires AllAvoid(es, other)
    ensures Sound(History(es, other))
  {
    hide Next, Avoids;
    if es == [] {
      RunKeeps([], other);
    } else {
      var n := |es| - 1;
      PrefixAvoids(es, n, other);
      HistorySound(es[..n], other);
      NextSound(History(es[..n], other), es[n], other);
    }
  }

  lemma PrefixAvoids(es: seq<Event>, n: nat, other: OtherAddrs)
    requires AllAvoid(es, other) && n <= |es|
    ensures AllAvoid(es[..n], other)
  {
    hide History, Avoids;
    forall k | 0 <= k < n
      ensures Avoids(History(es[..n][..k], other), es[..n][k], other)
    {
      assert es[..n][..k] == es[..k];
    }
  }

  ghost predicate DistinctTunnels(ps: seq<Peer>) {
    forall i, j :: 0 <= i < j < |ps| ==> Tunnel(ps[i].allowedIPs) != Tunnel(ps[j].allowedIPs)
  }

  lemma SoundDistinct(s: Shared)
    requires Sound(s)
    ensures DistinctTunnels(s.rows.peers)
  {
    hide Orderly, Tunnel, StillFree;
    forall i, j | 0 <= i < j < |s.rows.peers|
      ensures Tunnel(s.rows.peers[i].allowedIPs) != Tunnel(s.rows.peers[j].allowedIPs)
    {
      OrderlyTunnels(s.rows, i, j);
    }
  }

  // ----- Exactly when tunnels stay distinct -----

  /** Two pending creates of one present network end with the same tunnel address if and only
      if they picked the same. */
  lemma CommitsClashExactly(s: Shared, t: nat, u: nat, other: OtherAddrs)
    requires t != u && t in s.pending && u in s.pending && s.pending[t].network == s.pending[u].network
    requires s.pending[t].addr < ADDRESSES && s.pending[u].addr < ADDRESSES
    requires FindNetwork(s.rows.networks, s.pending[t].network).Some?
    ensures var ps := Next(Next(s, Commit(t, true), other), Commit(u, true), other).rows.peers;
            && |ps| == |s.rows.peers| + 2
            && (Tunnel(ps[|ps| - 2].allowedIPs) == Tunnel(ps[|ps| - 1].allowedIPs) <==>
                s.pending[t].addr == s.pending[u].addr)
  {
    hide AllowedFor, Tunnel;
    AllowedForTunnel(s.pending[t].addr, s.pending[t].role, s.pending[t].sites);
    AllowedForTunnel(s.pending[u].addr, s.pending[u].role, s.pending[u].sites);
  }

  ghost predicate Commits(cs: seq<Event>) {
    forall i :: 0 <= i < |cs| ==> cs[i].Commit?
  }

  /** At every point of the run, whatever is then stored, tunnels are distinct. */
  ghost predicate Safe(es: seq<Event>, other: OtherAddrs) {
    forall k, cs :: 0 <= k <= |es| && Commits(cs) ==> DistinctTunnels(History(es[..k] + cs, other).rows.peers)
  }

  lemma AvoidsThenCommits(es: seq<Event>, cs: seq<Event>, other: OtherAddrs)
    requires AllAvoid(es, other) && Commits(cs)
    ensures AllAvoid(es + cs, other)
  {
    hide History;
    var all := es + cs;
    forall k | 0 <= k < |all|
      ensures Avoids(History(all[..k], other), all[k], other)
    {
      if k < |es| {
        assert all[..k] == es[..k];
      }
    }
  }

  /** A pick that another create holds can be made to clash. */
  lemma ClashAfter(es: seq<Event>, e: Event, other: OtherAddrs) returns (cs: seq<Event>)
    requires Sound(History(es, other)) && !Avoids(History(es, other), e, other)
    ensures Commits(cs) && !DistinctTunnels(History(es + [e] + cs, other).rows.peers)
  {
    hide History, Pick, Orderly, Store, CreatePeer, Tunnel, Next;
    var s := History(es, other);
    HistorySnoc(es, e, other);
    if e.Begin? {
      var x := Pick(s.rows, e.network, e.role, e.sites, other).value;
      var t :| t in s.pending && s.pending[t].network == e.network && s.pending[t].addr == x;
      cs := [Commit(t, true), Commit(e.token, true)];
      HistorySnoc(es + [e], cs[0], other);
      HistorySnoc(es + [e] + [cs[0]], cs[1], other);
      assert es + [e] + cs == es + [e] + [cs[0]] + [cs[1]];
      BeginClash(s, e, t, other);
    } else {
      var x := Pick(s.rows, e.op.network, e.op.role, e.op.sites, other).value;
      var t :| t in s.pending && s.pending[t].network == e.op.network && s.pending[t].addr == x;
      cs := [Commit(t, true)];
      HistorySnoc(es + [e], cs[0], other);
      WholeClash(s, e.op, t, other);
    }
  }

  lemma BeginClash(s: Shared, e: Event, t: nat, other: OtherAddrs)
    requires e.Begin? && e.token !in s.pending && t in s.pending && s.pending[t].network == e.network
    requires Pick(s.rows, e.network, e.role, e.sites, other) == Some(s.pending[t].addr)
    ensures var s1 := Next(s, e, other);
            !DistinctTunnels(Next(Next(s1, Commit(t, true), other), Commit(e.token, true), other).rows.peers)
  {
    hide ValidRole, Granted, ParseCIDR4, Tunnel, Store;
    var s1 := Next(s, e, other);
    CommitsClashExactly(s1, t, e.token, other);
  }

  lemma WholeClash(s: Shared, op: Op, t: nat, other: OtherAddrs)
    requires op.NewPeer? && op.rest && t in s.pending && s.pending[t].network == op.network
    requires Pick(s.rows, op.network, op.role, op.sites, other) == Some(s.pending[t].addr)
    ensures !DistinctTunnels(Next(Next(s, Whole(op), other), Commit(t, true), other).rows.peers)
  {
    hide ValidRole, Granted, ParseCIDR4, Tunnel, AllowedFor;
    var q := s.pending[t];
    AllowedForTunnel(q.addr, op.role, op.sites);
    AllowedForTunnel(q.addr, q.role, q.sites);
    var ps := Next(Next(s, Whole(op), other), Commit(t, true), other).rows.peers;
    assert Tunnel(ps[|ps| - 2].allowedIPs) == Tunnel(ps[|ps| - 1].allowedIPs);
  }

  lemma {:induction false} SafeAvoids(es: seq<Event>, other: OtherAddrs)
    requires Safe(es, other)
    ensures AllAvoid(es, other)
  {
    hide History, Avoids, DistinctTunnels, Sound;
    if es != [] {
      var n := |es| - 1;
      forall k, cs | 0 <= k <= n && Commits(cs)
        ensures DistinctTunnels(History(es[..n][..k] + cs, other).rows.peers)
      {
        assert es[..n][..k] == es[..k];
      }
      SafeAvoids(es[..n], other);
      HistorySound(es[..n], other);
      assert es[..n] + [es[n]] == es[..|es|];
      if !Avoids(History(es[..n], other), es[n], other) {
        var cs := ClashAfter(es[..n], es[n], other);
      }
      forall k | 0 <= k < |es|
        ensures Avoids(History(es[..k], other), es[k], other)
      {
        assert k < n ==> es[..n][..k] == es[..k] && es[..n][k] == es[k];
      }
    }
  }

  /** Over every interleaving: at each point, whichever pending creates are then stored, no two
      peers of any networks hold the same tunnel address, if and only if no create ever picks
      an address that another create of its network has picked and not yet stored. */
  lemma TunnelsDistinctExactly(es: seq<Event>, other: OtherAddrs)
    ensures AllAvoid(es, other) <==> Safe(es, other)
  {
    hide History, Avoids, DistinctTunnels, Sound;
    if AllAvoid(es, other) {
      forall k, cs | 0 <= k <= |es| && Commits(cs)
        ensures DistinctTunnels(History(es[..k] + cs, other).rows.peers)
      {
        PrefixAvoids(es, k, other);
        AvoidsThenCommits(es[..k], cs, other);
        HistorySound(es[..k] + cs, other);
        SoundDistinct(History(es[..k] + cs, other));
      }
    }
    if Safe(es, other) {
      SafeAvoids(es, other);
    }
  }

  /** Creates of one network that do not overlap avoid each other's picks. */
  lemma AloneAvoids(s: Shared, e: Event, other: OtherAddrs)
    requires match e
             case Begin(_, network, _, _) => forall t :: t in s.pending ==> s.pending[t].network != network
             case Whole(NewPeer(network, _, _, _)) => forall t :: t in s.pending ==> s.pending[t].network != network
             case _ => true
    ensures Avoids(s, e, other)
  {
    hide Pick;
  }

  // ----- Two runs -----

  function Clashing(): seq<Event> {
    [Whole(Create()), Begin(0, 1, "client", ""), Begin(1, 1, "client", ""), Commit(0, true), Commit(1, true)]
  }

  lemma FiveEvents(a: Event, b: Event, c: Event, d: Event, e: Event, other: OtherAddrs)
    ensures History([a, b, c, d, e], other) ==
            Next(Next(Next(Next(Next(Shared(Empty, map[]), a, other), b, other), c, other), d, other), e, other)
  {
    hide Next;
    HistorySnoc([], a, other);
    HistorySnoc([a], b, other);
    HistorySnoc([a, b], c, other);
    HistorySnoc([a, b, c], d, other);
    HistorySnoc([a, b, c, d], e, other);
    assert [] + [a] == [a] && [a] + [b] == [a, b] && [a, b] + [c] == [a, b, c];
    assert [a, b, c] + [d] == [a, b, c, d] && [a, b, c, d] + [e] == [a, b, c, d, e];
  }

  /** From a state in which a client would get x: pick, pick, store, store. */
  lemma PickPickStoreStore(s: State, x: nat, other: OtherAddrs)
    requires Pick(s, 1, "client", "", other) == Some(x)
    ensures var p1 := Next(Shared(s, map[]), Begin(0, 1, "client", ""), other);
            var p2 := Next(p1, Begin(1, 1, "client", ""), other);
            var ps := Next(Next(p2, Commit(0, true), other), Commit(1, true), other).rows.peers;
            && |ps| == |s.peers| + 2 && ps[|s.peers|].network == ps[|s.peers| + 1].network == 1
            && Tunnel(ps[|s.peers|].allowedIPs) == Tunnel(ps[|s.peers| + 1].allowedIPs) == Some(x)
  {
    hide ValidRole, Granted, ParseCIDR4, Tunnel, AllowedFor;
    AllowedForTunnel(x, "client", "");
  }

  /** Two creates that list the peers before either stores its row. */
  lemma ClashingRun(other: OtherAddrs)
    ensures var ps := History(Clashing(), other).rows.peers;
            && |ps| == 2 && ps[0].network == ps[1].network == 1
            && Tunnel(ps[0].allowedIPs) == Tunnel(ps[1].allowedIPs) == Some(NET + 2)
  {
    hide Subnet, Orderly, Pick, AllowedFor, Tunnel, UsedTexts, PrintIPv4, Single, History, Create;
    FiveEvents(Whole(Create()), Begin(0, 1, "client", ""), Begin(1, 1, "client", ""), Commit(0, true), Commit(1, true),
               other);
    Created(other);
    NothingUsed(other);
    var s := Step(Empty, Create(), other);
    PickIn(s, "client", "", other, NET + 2);
    PickPickStoreStore(s, NET + 2, other);
  }

  lemma NothingUsed(other: OtherAddrs)
    ensures UsedTexts([], 1, other) == {} && ValidRole("client", "", other)
  {
  }
}
