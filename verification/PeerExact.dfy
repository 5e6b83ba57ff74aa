/** Exactly which database rows the plan of `syncPeers` can put in place on every device. */
module PeerExact {
  import opened Wrappers
  import Text
  import opened Cidr
  import opened Collections
  import opened Kernel
  import opened PeerSync

  /** No block belongs to two peers, as the kernel has it. */
  ghost predicate SingleOwner(ps: Peers) {
    forall k, l :: k in ps && l in ps && k != l ==> ps[k] !! ps[l]
  }

  lemma {:induction false} ApplyKeepsOwners(ps: Peers, cs: seq<PeerCfg>)
    requires SingleOwner(ps)
    ensures SingleOwner(ApplyPeers(ps, cs))
  {
    if cs != [] {
      ApplyKeepsOwners(ps, cs[..|cs| - 1]);
    }
  }

  /** Two enabled peers with a block in common are never both satisfied. */
  lemma SharedNeverAgrees(ps: Peers, peers: seq<Peer>, other: OtherNets)
    requires SingleOwner(ps) && DistinctKeys(peers) && !DisjointBlocks(peers, other)
    ensures !Agrees(ps, peers, other)
  {
    hide Blocks;
    var i, j :| 0 <= i < |peers| && 0 <= j < |peers| && i != j && peers[i].enabled && peers[j].enabled &&
      !(Blocks(peers[i], other) !! Blocks(peers[j], other));
    assert peers[i].key != peers[j].key;
  }

  /** A device as the kernel can have it. */
  ghost predicate Device(ps: Peers) {
    SingleOwner(ps) && forall k, b :: k in ps && b in ps[k] ==> ValidNet(b)
  }

  /** From every device, the plan ends with exactly what the database says. */
  ghost predicate AlwaysConverges(peers: seq<Peer>, other: OtherNets) {
    forall ps, d :: Device(ps) && Describes(d, ps) ==> Agrees(ApplyPeers(ps, Plan(d, peers, other)), peers, other)
  }

  // ----- Which peer a call is for -----

  lemma {:induction false} CallFrom(snap: map<string, seq<IPNet>>, peers: seq<Peer>, n: nat, c: PeerCfg,
                                    other: OtherNets)
    returns (j: nat)
    requires n <= |peers| && c in PlanPeers(snap, peers[..n], other)
    ensures j < n && c in PlanPeer(snap, peers[j], other) && c.key == peers[j].key
  {
    hide ParseList, Matches;
    assert peers[..n][..n - 1] == peers[..n - 1];
    if c in PlanPeers(snap, peers[..n - 1], other) {
      j := CallFrom(snap, peers, n - 1, c, other);
    } else {
      j := n - 1;
    }
  }

  /** No call goes to an enabled peer for which the plan has none. */
  lemma NoCallFor(d: seq<PeerInfo>, peers: seq<Peer>, i: nat, c: PeerCfg, other: OtherNets)
    requires DistinctKeys(peers) && i < |peers| && peers[i].enabled && PlanPeer(Index(d), peers[i], other) == []
    requires c in Plan(d, peers, other)
    ensures c.key != peers[i].key
  {
    hide PlanPeer, PlanPeers, PlanOrphans, Index, Blocks;
    assert peers[..|peers|] == peers;
    if c in PlanPeers(Index(d), peers, other) {
      var j := CallFrom(Index(d), peers, |peers|, c, other);
    } else {
      HarmlessOrphans(d, peers, other);
      OrphanRemoves(d, KeysOf(peers), c);
    }
  }

  lemma {:induction false} OrphanRemoves(d: seq<PeerInfo>, known: set<string>, c: PeerCfg)
    requires c in PlanOrphans(d, known)
    ensures c.remove
  {
    if c in PlanOrphans(d[..|d| - 1], known) {
      OrphanRemoves(d[..|d| - 1], known, c);
    }
  }

  // ----- A list that does not parse -----

  lemma {:induction false} NeverAdded(q: Peers, cs: seq<PeerCfg>, key: string)
    requires key !in q && forall c :: c in cs ==> c.key != key
    ensures key !in ApplyPeers(q, cs)
  {
    if cs != [] {
      var n := |cs| - 1;
      assert cs == cs[..n] + [cs[n]];
      NeverAdded(q, cs[..n], key);
    }
  }

  /** An enabled peer whose list does not parse is never put on an empty device. */
  lemma UnparsedFails(peers: seq<Peer>, i: nat, other: OtherNets)
    requires DistinctKeys(peers) && i < |peers| && peers[i].enabled && ParseList(peers[i].allowedIPs, other).None?
    ensures !AlwaysConverges(peers, other)
  {
    hide Plan, ParseList, Index;
    var none: Peers, d: seq<PeerInfo> := map[], [];
    assert Device(none) && Describes(d, none);
    forall c | c in Plan(d, peers, other)
      ensures c.key != peers[i].key
    {
      NoCallFor(d, peers, i, c, other);
    }
    NeverAdded(none, Plan(d, peers, other), peers[i].key);
    assert !Agrees(ApplyPeers(none, Plan(d, peers, other)), peers, other);
  }

  // ----- A list that repeats a block -----

  function Colons(n: nat): string {
    if n == 0 then ":" else Colons(n - 1) + ":"
  }

  lemma {:induction false} ColonsFacts(n: nat)
    ensures |Colons(n)| == n + 1 && ValidNet(V6(Colons(n)))
  {
    if n > 0 {
      ColonsFacts(n - 1);
    }
  }

  /** Blocks never run out. */
  lemma {:induction false} FreshBlock(used: set<IPNet>, n: nat) returns (m: nat)
    ensures m >= n && V6(Colons(m)) !in used && ValidNet(V6(Colons(m)))
    decreases used
  {
    ColonsFacts(n);
    m := n;
    if V6(Colons(n)) in used {
      m := FreshBlock(used - {V6(Colons(n))}, n + 1);
      ColonsFacts(m);
    }
  }

  lemma {:induction false} FreshBlocks(used: set<IPNet>, count: nat) returns (s: seq<IPNet>)
    ensures |s| == count && NoRepeats(s) && Elems(s) !! used && forall b :: b in s ==> ValidNet(b)
    decreases count
  {
    if count == 0 {
      s := [];
    } else {
      var m := FreshBlock(used, 0);
      var b := V6(Colons(m));
      var rest := FreshBlocks(used + {b}, count - 1);
      s := [b] + rest;
      assert forall i :: 0 <= i < |rest| ==> rest[i] in Elems(rest);
    }
  }

  lemma {:induction false} BlockStays(q: Peers, cs: seq<PeerCfg>, key: string, b: IPNet)
    requires key in q && b in q[key]
    requires forall c :: c in cs ==> c.key != key && (c.remove || b !in Elems(c.allowed))
    ensures key in ApplyPeers(q, cs) && b in ApplyPeers(q, cs)[key]
  {
    if cs != [] {
      var n := |cs| - 1;
      assert cs == cs[..n] + [cs[n]];
      BlockStays(q, cs[..n], key, b);
    }
  }

  function AllBlocks(peers: seq<Peer>, other: OtherNets): set<IPNet> {
    set i, b | 0 <= i < |peers| && b in Blocks(peers[i], other) :: b
  }

  lemma OnePeerDevice(key: string, held: seq<IPNet>)
    requires NoRepeats(held) && forall b :: b in held ==> ValidNet(b)
    ensures var (d, ps) := ([PeerInfo(key, held)], map[key := Elems(held)]);
            Describes(d, ps) && Device(ps) && Index(d) == map[key := held]
  {
    hide ValidNet;
    var d, ps := [PeerInfo(key, held)], map[key := Elems(held)];
    assert d[..0] == [];
    assert d[0].key == key;
  }

  /** A block that no database list has stays with a peer that gets no call. */
  lemma StrayStays(peers: seq<Peer>, i: nat, d: seq<PeerInfo>, ps: Peers, b: IPNet, other: OtherNets)
    requires DistinctKeys(peers) && i < |peers| && peers[i].enabled && PlanPeer(Index(d), peers[i], other) == []
    requires peers[i].key in ps && b in ps[peers[i].key] && b !in AllBlocks(peers, other)
    ensures !Agrees(ApplyPeers(ps, Plan(d, peers, other)), peers, other)
  {
    hide Plan, Blocks, PlanPeer, Index, ApplyPeers;
    PlanHarmless(d, peers, other);
    forall c | c in Plan(d, peers, other)
      ensures c.key != peers[i].key && (c.remove || b !in Elems(c.allowed))
    {
      NoCallFor(d, peers, i, c, other);
      if !c.remove {
        assert Harmless(c, peers, other);
        var j :| 0 <= j < |peers| && Elems(c.allowed) == Blocks(peers[j], other);
      }
    }
    BlockStays(ps, Plan(d, peers, other), peers[i].key, b);
  }

  /** A device that holds the blocks of a repeating list and as many others as it repeats is
      taken for equal, and left with the others. */
  lemma RepeatFails(peers: seq<Peer>, i: nat, other: OtherNets)
    requires Lawful(other) && DistinctKeys(peers) && i < |peers| && peers[i].enabled
    requires ParseList(peers[i].allowedIPs, other).Some? && !NoRepeats(ParseList(peers[i].allowedIPs, other).value)
    ensures !AlwaysConverges(peers, other)
  {
    hide ParseList, Plan, AllBlocks, Device, Describes, Agrees, Index, Lawful, ValidNet, DistinctKeys;
    var ns, key := ParseList(peers[i].allowedIPs, other).value, peers[i].key;
    CountElems(ns);
    var listed := Listed(Elems(ns));
    CountElems(listed);
    var extra := FreshBlocks(AllBlocks(peers, other) + Elems(ns), |ns| - |Elems(ns)|);
    var held := listed + extra;
    HeldFacts(listed, extra, ns);
    ListValid(peers[i].allowedIPs, other);
    OnePeerDevice(key, held);
    var d, ps := [PeerInfo(key, held)], map[key := Elems(held)];
    assert extra[0] in Elems(extra);
    Unnoticed(peers[i], held, ns, other);
    StrayStays(peers, i, d, ps, extra[0], other);
  }

  lemma Unnoticed(p: Peer, held: seq<IPNet>, ns: seq<IPNet>, other: OtherNets)
    requires p.enabled && ParseList(p.allowedIPs, other) == Some(ns) && |held| == |ns| && Elems(ns) <= Elems(held)
    ensures PlanPeer(map[p.key := held], p, other) == []
  {
    hide ParseList;
    assert Matches(ns, held);
  }

  lemma HeldFacts(listed: seq<IPNet>, extra: seq<IPNet>, ns: seq<IPNet>)
    requires NoRepeats(listed) && NoRepeats(extra) && Elems(listed) == Elems(ns) && Elems(extra) !! Elems(ns)
    ensures NoRepeats(listed + extra) && Elems(listed + extra) == Elems(ns) + Elems(extra)
    ensures forall b :: b in listed + extra ==> b in Elems(ns) || b in extra
  {
    forall i, j | 0 <= i < |listed| && 0 <= j < |extra|
      ensures listed[i] != extra[j]
    {
      assert listed[i] in Elems(listed) && extra[j] in Elems(extra);
    }
  }

  lemma ListValid(list: string, other: OtherNets)
    requires Lawful(other) && ParseList(list, other).Some?
    ensures forall b :: b in Elems(ParseList(list, other).value) ==> ValidNet(b)
  {
    ParsePartsValid(Text.TrimmedParts(Text.Split(list, ',')), other);
  }

  // ----- Exactly -----

  /** Given distinct keys, the plan brings every device to what the database says if and only
      if every enabled peer's list parses and repeats no block, and no two share one. */
  lemma ConvergesExactly(peers: seq<Peer>, other: OtherNets)
    requires Lawful(other) && DistinctKeys(peers)
    ensures WellFormed(peers, other) <==> AlwaysConverges(peers, other)
  {
    hide Agrees, DisjointBlocks, Plan, ApplyPeers, Lawful, DistinctKeys;
    if WellFormed(peers, other) {
      forall ps, d | Device(ps) && Describes(d, ps)
        ensures Agrees(ApplyPeers(ps, Plan(d, peers, other)), peers, other)
      {
        PlanConverges(ps, d, peers, other);
      }
    } else if !DisjointBlocks(peers, other) {
      var none: Peers, d: seq<PeerInfo> := map[], [];
      assert Device(none) && Describes(d, none);
      ApplyKeepsOwners(none, Plan(d, peers, other));
      SharedNeverAgrees(ApplyPeers(none, Plan(d, peers, other)), peers, other);
    } else {
      var i :| 0 <= i < |peers| && peers[i].enabled && !Readable(peers[i], other);
      if ParseList(peers[i].allowedIPs, other).None? {
        UnparsedFails(peers, i, other);
      } else {
        RepeatFails(peers, i, other);
      }
    }
  }
}
