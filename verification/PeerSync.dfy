/**
 What `syncPeers` asks of one device.  The calls depend only on the snapshot taken before
 any of them and on the database, so they form a plan; the lemmas here say what the plan
 does to a device whose state has moved on since the snapshot.
 */
module PeerSync {
  import opened Wrappers
  import opened Cidr
  import opened Collections
  import opened Kernel

  datatype Peer = Peer(key: string, allowedIPs: string, enabled: bool)

  type OtherNets = string -> Option<IPNet>

  // ----- Comparing AllowedIPs -----

  /** The comparison made: equal lengths, and every database block among the kernel's. */
  predicate Matches(ns: seq<IPNet>, kernel: seq<IPNet>) {
    |ns| == |kernel| && forall n :: n in ns ==> n in kernel
  }

  predicate ListMatches(allowedIPs: string, kernel: seq<IPNet>, other: OtherNets) {
    var ns := ParseList(allowedIPs, other);
    ns.Some? && Matches(ns.value, kernel)
  }

  method TextsOf(kernel: seq<IPNet>) returns (texts: set<string>)
    requires forall n :: n in kernel ==> ValidNet(n)
    ensures forall n :: ValidNet(n) ==> (NetText(n) in texts <==> n in kernel)
  {
    texts := {};
    for i := 0 to |kernel|
      invariant texts == set j | 0 <= j < i :: NetText(kernel[j])
    {
      texts := texts + {NetText(kernel[i])};
    }
    forall n | ValidNet(n)
      ensures NetText(n) in texts <==> n in kernel
    {
      if NetText(n) in texts {
        var j :| 0 <= j < |kernel| && NetText(kernel[j]) == NetText(n);
        NetTextInjective(n, kernel[j]);
      }
    }
  }

  /** Blocks are compared through their text. */
  method AllowedIPsMatch(allowedIPs: string, kernel: seq<IPNet>, other: OtherNets) returns (m: bool)
    requires Lawful(other)
    requires forall n :: n in kernel ==> ValidNet(n)
    ensures m == ListMatches(allowedIPs, kernel, other)
  {
    hide NetText, ValidNet, ParseParts, Text.TrimmedParts, Text.Split;
    var parsed := ParseAllowedIPs(allowedIPs, other);
    if parsed.None? {
      return false;
    }
    var ns := parsed.value;
    ParsePartsValid(Text.TrimmedParts(Text.Split(allowedIPs, ',')), other);
    if |ns| != |kernel| {
      return false;
    }
    var texts := TextsOf(kernel);
    for i := 0 to |ns|
      invariant forall j :: 0 <= j < i ==> ns[j] in kernel
    {
      if NetText(ns[i]) !in texts {
        return false;
      }
    }
    return true;
  }

  /** Counting: one inclusion and equal lengths suffice when neither list repeats a block. */
  lemma MatchIsEquality(ns: seq<IPNet>, kernel: seq<IPNet>)
    requires NoRepeats(ns) && NoRepeats(kernel)
    ensures Matches(ns, kernel) <==> Elems(ns) == Elems(kernel)
  {
    CountElems(ns);
    CountElems(kernel);
    if Matches(ns, kernel) {
      assert Elems(ns) <= Elems(kernel);
      SubsetSameSize(Elems(ns), Elems(kernel));
    }
  }

  /** The comparison is set equality against every kernel list exactly when the database
      list repeats no block. */
  lemma MatchExactWhenRepeatFree(ns: seq<IPNet>)
    ensures NoRepeats(ns) <==>
            forall kernel :: NoRepeats(kernel) ==> (Matches(ns, kernel) <==> Elems(ns) == Elems(kernel))
  {
    if NoRepeats(ns) {
      forall kernel: seq<IPNet> | NoRepeats(kernel)
        ensures Matches(ns, kernel) <==> Elems(ns) == Elems(kernel)
      {
        MatchIsEquality(ns, kernel);
      }
    } else {
      var kernel := Listed(Elems(ns));
      CountElems(ns);
      CountElems(kernel);
      assert NoRepeats(kernel) && !Matches(ns, kernel) && Elems(ns) == Elems(kernel);
    }
  }

  /** Two copies of one block in the database look equal to two different kernel blocks. */
  lemma RepeatLooksEqual(x: IPNet, y: IPNet)
    requires x != y
    ensures NoRepeats([x, y]) && Matches([x, x], [x, y]) && Elems([x, x]) != Elems([x, y])
  {
    assert y in Elems([x, y]) && y !in Elems([x, x]);
  }

  // ----- The plan -----

  function Removal(key: string): PeerCfg {
    PeerCfg(key, true, false, false, [])
  }

  function Setting(key: string, updateOnly: bool, ns: seq<IPNet>): PeerCfg {
    PeerCfg(key, false, updateOnly, true, ns)
  }

  function Index(d: seq<PeerInfo>): map<string, seq<IPNet>> {
    if d == [] then map[] else Index(d[..|d| - 1])[d[|d| - 1].key := d[|d| - 1].allowed]
  }

  /** At most one call for a database peer; none when its AllowedIPs do not parse. */
  function PlanPeer(snap: map<string, seq<IPNet>>, p: Peer, other: OtherNets): seq<PeerCfg> {
    if !p.enabled then
      if p.key in snap then [Removal(p.key)] else []
    else
      match ParseList(p.allowedIPs, other)
      case None => []
      case Some(ns) =>
        if p.key !in snap then [Setting(p.key, false, ns)]
        else if Matches(ns, snap[p.key]) then []
        else [Setting(p.key, true, ns)]
  }

  function PlanPeers(snap: map<string, seq<IPNet>>, peers: seq<Peer>, other: OtherNets): seq<PeerCfg> {
    if peers == [] then []
    else PlanPeers(snap, peers[..|peers| - 1], other) + PlanPeer(snap, peers[|peers| - 1], other)
  }

  function PlanOrphans(d: seq<PeerInfo>, known: set<string>): seq<PeerCfg> {
    if d == [] then []
    else
      var last := d[|d| - 1];
      PlanOrphans(d[..|d| - 1], known) + (if last.key in known then [] else [Removal(last.key)])
  }

  function KeysOf(peers: seq<Peer>): set<string> {
    set p | p in peers :: p.key
  }

  function Plan(d: seq<PeerInfo>, peers: seq<Peer>, other: OtherNets): seq<PeerCfg> {
    PlanPeers(Index(d), peers, other) + PlanOrphans(d, KeysOf(peers))
  }

  // ----- What the database demands of a device -----

  function BlocksIn(allowedIPs: string, other: OtherNets): set<IPNet> {
    match ParseList(allowedIPs, other)
    case None => {}
    case Some(ns) => Elems(ns)
  }

  function Blocks(p: Peer, other: OtherNets): set<IPNet> {
    BlocksIn(p.allowedIPs, other)
  }

  ghost predicate DistinctKeys(peers: seq<Peer>) {
    forall i, j :: 0 <= i < j < |peers| ==> peers[i].key != peers[j].key
  }

  ghost predicate DisjointBlocks(peers: seq<Peer>, other: OtherNets) {
    forall i, j :: 0 <= i < |peers| && 0 <= j < |peers| && i != j && peers[i].enabled && peers[j].enabled ==>
      Blocks(peers[i], other) !! Blocks(peers[j], other)
  }

  ghost predicate Readable(p: Peer, other: OtherNets) {
    ParseList(p.allowedIPs, other).Some? && NoRepeats(ParseList(p.allowedIPs, other).value)
  }

  ghost predicate WellFormed(peers: seq<Peer>, other: OtherNets) {
    && DistinctKeys(peers)
    && DisjointBlocks(peers, other)
    && (forall i :: 0 <= i < |peers| && peers[i].enabled ==> Readable(peers[i], other))
  }

  /** The device holds exactly the enabled database peers, each with its blocks. */
  ghost predicate Agrees(ps: Peers, peers: seq<Peer>, other: OtherNets) {
    && (forall i :: 0 <= i < |peers| && peers[i].enabled ==>
          peers[i].key in ps && ps[peers[i].key] == Blocks(peers[i], other))
    && (forall k :: k in ps ==> exists i :: 0 <= i < |peers| && peers[i].enabled && peers[i].key == k)
  }

  // ----- Snapshot index -----

  lemma {:induction false} IndexOfSnapshot(d: seq<PeerInfo>, i: nat)
    requires forall i, j :: 0 <= i < j < |d| ==> d[i].key != d[j].key
    requires i < |d|
    ensures d[i].key in Index(d) && Index(d)[d[i].key] == d[i].allowed
  {
    var n := |d| - 1;
    if i < n {
      IndexOfSnapshot(d[..n], i);
      assert d[..n][i] == d[i];
    }
  }

  lemma {:induction false} IndexKeys(d: seq<PeerInfo>)
    ensures forall k :: k in Index(d) ==> exists i :: 0 <= i < |d| && d[i].key == k
  {
    if d != [] {
      var n := |d| - 1;
      IndexKeys(d[..n]);
      forall k | k in Index(d)
        ensures exists i :: 0 <= i < |d| && d[i].key == k
      {
        if k == d[n].key {
          assert d[n].key == k;
        } else {
          assert k in Index(d[..n]);
          var i :| 0 <= i < |d[..n]| && d[..n][i].key == k;
          assert d[i].key == k;
        }
      }
    }
  }

  /** The index agrees with the device the snapshot describes. */
  ghost predicate Indexed(snap: map<string, seq<IPNet>>, ps: Peers) {
    snap.Keys == ps.Keys && forall k :: k in snap ==> NoRepeats(snap[k]) && Elems(snap[k]) == ps[k]
  }

  lemma SnapshotIndexed(d: seq<PeerInfo>, ps: Peers)
    requires Describes(d, ps)
    ensures Indexed(Index(d), ps)
  {
    IndexKeys(d);
    forall i | 0 <= i < |d|
      ensures d[i].key in Index(d) && Index(d)[d[i].key] == d[i].allowed
    {
      IndexOfSnapshot(d, i);
    }
    forall k | k in ps
      ensures k in Index(d)
    {
      var i :| 0 <= i < |d| && d[i].key == k;
    }
  }

  // ----- Convergence -----

  /** State after the first `i` database peers: those are settled, the rest and the
      unknown keys are as the snapshot had them, except that a peer which is to be
      replaced may have lost blocks meanwhile. */
  ghost predicate Settled(q: Peers, peers: seq<Peer>, i: nat, other: OtherNets)
    requires i <= |peers|
  {
    forall j :: 0 <= j < i ==>
      if peers[j].enabled
      then peers[j].key in q && q[peers[j].key] == Blocks(peers[j], other)
      else peers[j].key !in q
  }

  ghost predicate Pending(q: Peers, snap: map<string, seq<IPNet>>, peers: seq<Peer>, i: nat, other: OtherNets)
    requires i <= |peers|
  {
    forall j :: i <= j < |peers| ==>
      && (peers[j].key in q <==> peers[j].key in snap)
      && ((peers[j].key in snap && peers[j].key in q && peers[j].enabled &&
           Elems(snap[peers[j].key]) == Blocks(peers[j], other)) ==> q[peers[j].key] == Blocks(peers[j], other))
  }

  ghost predicate Strangers(q: Peers, snap: map<string, seq<IPNet>>, peers: seq<Peer>) {
    forall k :: k !in KeysOf(peers) ==> (k in q <==> k in snap)
  }

  ghost predicate Progress(q: Peers, snap: map<string, seq<IPNet>>, peers: seq<Peer>, i: nat, other: OtherNets)
    requires i <= |peers|
  {
    Settled(q, peers, i, other) && Pending(q, snap, peers, i, other) && Strangers(q, snap, peers)
  }

  lemma KnownKey(peers: seq<Peer>, i: nat)
    requires i < |peers|
    ensures peers[i].key in KeysOf(peers)
  {
  }

  lemma StepRemove(q: Peers, snap: map<string, seq<IPNet>>, peers: seq<Peer>, i: nat, other: OtherNets)
    requires DistinctKeys(peers) && i < |peers| && !peers[i].enabled
    requires Progress(q, snap, peers, i, other)
    ensures Progress(q - {peers[i].key}, snap, peers, i + 1, other)
  {
    KnownKey(peers, i);
    var q' := q - {peers[i].key};
    forall j | 0 <= j < |peers| && j != i
      ensures peers[j].key in q' <==> peers[j].key in q
      ensures peers[j].key in q ==> q'[peers[j].key] == q[peers[j].key]
    {
      assert peers[j].key != peers[i].key;
    }
  }

  lemma StepGive(q: Peers, snap: map<string, seq<IPNet>>, peers: seq<Peer>, i: nat, other: OtherNets)
    requires WellFormed(peers, other) && i < |peers| && peers[i].enabled
    requires Progress(q, snap, peers, i, other)
    ensures Progress(Give(q, peers[i].key, Blocks(peers[i], other), {}), snap, peers, i + 1, other)
  {
    hide Blocks, Give, WellFormed;
    KnownKey(peers, i);
    var b := Blocks(peers[i], other);
    var q' := Give(q, peers[i].key, b, {});
    GiveAt(q, peers[i].key, b, peers[i].key, b);
    forall j | 0 <= j < |peers| && j != i
      ensures peers[j].key in q' <==> peers[j].key in q
      ensures peers[j].enabled && peers[j].key in q && q[peers[j].key] == Blocks(peers[j], other)
              ==> q'[peers[j].key] == Blocks(peers[j], other)
    {
      Unlike(peers, i, j, other);
      GiveAt(q, peers[i].key, b, peers[j].key, Blocks(peers[j], other));
    }
    forall k | k !in KeysOf(peers)
      ensures k in q' <==> k in q
    {
      GiveAt(q, peers[i].key, b, k, {});
    }
  }

  lemma Unlike(peers: seq<Peer>, i: nat, j: nat, other: OtherNets)
    requires WellFormed(peers, other) && i < |peers| && j < |peers| && i != j && peers[i].enabled
    ensures peers[i].key != peers[j].key
    ensures peers[j].enabled ==> Blocks(peers[i], other) !! Blocks(peers[j], other)
  {
    hide Blocks;
  }

  /** What giving blocks to one peer does to any key. */
  lemma GiveAt(q: Peers, key: string, b: set<IPNet>, k: string, own: set<IPNet>)
    ensures k in Give(q, key, b, {}) <==> k in q || k == key
    ensures k == key ==> Give(q, key, b, {})[k] == b
    ensures k != key && k in q && q[k] == own && own !! b ==> Give(q, key, b, {})[k] == own
  {
  }

  lemma StepSkip(q: Peers, snap: map<string, seq<IPNet>>, peers: seq<Peer>, i: nat, other: OtherNets)
    requires i < |peers| && Progress(q, snap, peers, i, other)
    requires if peers[i].enabled
             then peers[i].key in snap && Elems(snap[peers[i].key]) == Blocks(peers[i], other)
             else peers[i].key !in snap
    ensures Progress(q, snap, peers, i + 1, other)
  {
  }

  lemma ApplyOne(q: Peers, c: PeerCfg)
    ensures ApplyPeers(q, []) == q && ApplyPeers(q, [c]) == ApplyPeer(q, c)
  {
    assert [c][..0] == [];
  }

  lemma StepDisabled(q: Peers, snap: map<string, seq<IPNet>>, peers: seq<Peer>, i: nat, other: OtherNets)
    requires DistinctKeys(peers) && i < |peers| && !peers[i].enabled
    requires Progress(q, snap, peers, i, other)
    ensures Progress(ApplyPeers(q, PlanPeer(snap, peers[i], other)), snap, peers, i + 1, other)
  {
    ApplyOne(q, Removal(peers[i].key));
    if peers[i].key in snap {
      StepRemove(q, snap, peers, i, other);
    } else {
      StepSkip(q, snap, peers, i, other);
    }
  }

  /** What the call for an enabled peer does: nothing when the snapshot had its blocks. */
  lemma EnabledEffect(q: Peers, ps: Peers, snap: map<string, seq<IPNet>>, p: Peer, other: OtherNets)
    requires Indexed(snap, ps) && p.enabled && Readable(p, other) && (p.key in q <==> p.key in snap)
    ensures ApplyPeers(q, PlanPeer(snap, p, other)) ==
            if p.key in snap && Elems(snap[p.key]) == Blocks(p, other) then q else Give(q, p.key, Blocks(p, other), {})
  {
    var ns := ParseList(p.allowedIPs, other).value;
    if p.key in snap {
      MatchIsEquality(ns, snap[p.key]);
    }
    ApplyOne(q, Setting(p.key, p.key in snap, ns));
  }

  lemma StepEnabled(q: Peers, ps: Peers, snap: map<string, seq<IPNet>>, peers: seq<Peer>, i: nat, other: OtherNets)
    requires Indexed(snap, ps) && WellFormed(peers, other) && i < |peers| && peers[i].enabled
    requires Progress(q, snap, peers, i, other)
    ensures Progress(ApplyPeers(q, PlanPeer(snap, peers[i], other)), snap, peers, i + 1, other)
  {
    var p := peers[i];
    EnabledEffect(q, ps, snap, p, other);
    if p.key in snap && Elems(snap[p.key]) == Blocks(p, other) {
      StepSkip(q, snap, peers, i, other);
    } else {
      StepGive(q, snap, peers, i, other);
    }
  }

  lemma {:induction false} ApplyPeersConcat(ps: Peers, a: seq<PeerCfg>, b: seq<PeerCfg>)
    ensures ApplyPeers(ps, a + b) == ApplyPeers(ApplyPeers(ps, a), b)
  {
    if b == [] {
      assert a + b == a;
    } else {
      var n := |b| - 1;
      ApplyPeersConcat(ps, a, b[..n]);
      assert (a + b)[..|a + b| - 1] == a + b[..n];
    }
  }

  lemma {:induction false} PeersSettle(ps: Peers, snap: map<string, seq<IPNet>>, peers: seq<Peer>, i: nat,
                                       other: OtherNets)
    requires Indexed(snap, ps) && WellFormed(peers, other) && i <= |peers|
    ensures Progress(ApplyPeers(ps, PlanPeers(snap, peers[..i], other)), snap, peers, i, other)
  {
    if i > 0 {
      PeersSettle(ps, snap, peers, i - 1, other);
      assert peers[..i][..i - 1] == peers[..i - 1];
      var done := PlanPeers(snap, peers[..i - 1], other);
      ApplyPeersConcat(ps, done, PlanPeer(snap, peers[i - 1], other));
      if peers[i - 1].enabled {
        StepEnabled(ApplyPeers(ps, done), ps, snap, peers, i - 1, other);
      } else {
        StepDisabled(ApplyPeers(ps, done), snap, peers, i - 1, other);
      }
    }
  }

  lemma {:induction false} OrphansGo(q: Peers, d: seq<PeerInfo>, known: set<string>, k: string)
    ensures k in ApplyPeers(q, PlanOrphans(d, known)) <==>
            k in q && (k in known || forall i :: 0 <= i < |d| ==> d[i].key != k)
    ensures k in ApplyPeers(q, PlanOrphans(d, known)) ==> ApplyPeers(q, PlanOrphans(d, known))[k] == q[k]
  {
    if d != [] {
      var n := |d| - 1;
      hide ApplyPeers, PlanOrphans;
      OrphansGo(q, d[..n], known, k);
      assert d == d[..n] + [d[n]];
      OrphanNext(q, d, known);
    }
  }

  lemma OrphanNext(q: Peers, d: seq<PeerInfo>, known: set<string>)
    requires d != []
    ensures var (n, last) := (|d| - 1, d[|d| - 1].key);
            ApplyPeers(q, PlanOrphans(d, known)) ==
              var r := ApplyPeers(q, PlanOrphans(d[..n], known));
              if last in known then r else r - {last}
  {
    var n := |d| - 1;
    var cs := PlanOrphans(d[..n], known);
    if d[n].key in known {
      assert PlanOrphans(d, known) == cs;
    } else {
      assert (cs + [Removal(d[n].key)])[..|cs|] == cs;
    }
  }

  /** The plan brings any device to what the database says, although every call after the
      first acts on a device that has changed since the snapshot, and although each block
      given to one peer is taken from whoever held it. */
  lemma PlanConverges(ps: Peers, d: seq<PeerInfo>, peers: seq<Peer>, other: OtherNets)
    requires Describes(d, ps) && WellFormed(peers, other)
    ensures Agrees(ApplyPeers(ps, Plan(d, peers, other)), peers, other)
  {
    var snap := Index(d);
    SnapshotIndexed(d, ps);
    PeersSettle(ps, snap, peers, |peers|, other);
    assert peers[..|peers|] == peers;
    var q := ApplyPeers(ps, PlanPeers(snap, peers, other));
    var r := ApplyPeers(q, PlanOrphans(d, KeysOf(peers)));
    ApplyPeersConcat(ps, PlanPeers(snap, peers, other), PlanOrphans(d, KeysOf(peers)));
    Finish(q, r, d, peers, other);
  }

  lemma Finish(q: Peers, r: Peers, d: seq<PeerInfo>, peers: seq<Peer>, other: OtherNets)
    requires Progress(q, Index(d), peers, |peers|, other)
    requires r == ApplyPeers(q, PlanOrphans(d, KeysOf(peers)))
    ensures Agrees(r, peers, other)
  {
    forall i | 0 <= i < |peers| && peers[i].enabled
      ensures peers[i].key in r && r[peers[i].key] == Blocks(peers[i], other)
    {
      KnownKey(peers, i);
      OrphansGo(q, d, KeysOf(peers), peers[i].key);
    }
    forall k | k in r
      ensures exists i :: 0 <= i < |peers| && peers[i].enabled && peers[i].key == k
    {
      OrphansGo(q, d, KeysOf(peers), k);
      if k !in KeysOf(peers) {
        IndexKeys(d);
        assert false;
      }
      var p :| p in peers && p.key == k;
    }
  }

  // ----- Quiescence -----

  /** Nothing is asked of a device that already agrees. */
  lemma PlanQuiet(ps: Peers, d: seq<PeerInfo>, peers: seq<Peer>, other: OtherNets)
    requires Describes(d, ps) && WellFormed(peers, other) && Agrees(ps, peers, other)
    ensures Plan(d, peers, other) == []
  {
    SnapshotIndexed(d, ps);
    QuietPeers(ps, Index(d), peers, |peers|, other);
    assert peers[..|peers|] == peers;
    forall i | 0 <= i < |d|
      ensures d[i].key in KeysOf(peers)
    {
      assert d[i].key in ps;
      var j :| 0 <= j < |peers| && peers[j].enabled && peers[j].key == d[i].key;
      KnownKey(peers, j);
    }
    QuietOrphans(d, KeysOf(peers));
  }

  lemma {:induction false} QuietOrphans(d: seq<PeerInfo>, known: set<string>)
    requires forall i :: 0 <= i < |d| ==> d[i].key in known
    ensures PlanOrphans(d, known) == []
  {
    if d != [] {
      assert d[|d| - 1].key in known;
      QuietOrphans(d[..|d| - 1], known);
    }
  }

  lemma {:induction false} QuietPeers(ps: Peers, snap: map<string, seq<IPNet>>, peers: seq<Peer>, i: nat,
                                      other: OtherNets)
    requires Indexed(snap, ps) && WellFormed(peers, other) && Agrees(ps, peers, other) && i <= |peers|
    ensures PlanPeers(snap, peers[..i], other) == []
  {
    hide Indexed, WellFormed, Agrees, PlanPeer;
    if i > 0 {
      QuietPeers(ps, snap, peers, i - 1, other);
      assert peers[..i][..i - 1] == peers[..i - 1];
      QuietPeer(ps, snap, peers, i - 1, other);
    }
  }

  lemma QuietPeer(ps: Peers, snap: map<string, seq<IPNet>>, peers: seq<Peer>, i: nat, other: OtherNets)
    requires Indexed(snap, ps) && WellFormed(peers, other) && Agrees(ps, peers, other) && i < |peers|
    ensures PlanPeer(snap, peers[i], other) == []
  {
    hide ParseList, DisjointBlocks, Matches;
    var p := peers[i];
    if p.enabled {
      MatchIsEquality(ParseList(p.allowedIPs, other).value, snap[p.key]);
    } else {
      assert p.key !in ps;
    }
  }

  // ----- Safety when any call may fail -----

  /** The device after those calls of the plan that `mask` lets through. */
  function ApplySome(ps: Peers, cs: seq<PeerCfg>, mask: seq<bool>): Peers
    requires |mask| == |cs|
  {
    if cs == [] then ps
    else
      var n := |cs| - 1;
      var q := ApplySome(ps, cs[..n], mask[..n]);
      if mask[n] then ApplyPeer(q, cs[n]) else q
  }

  lemma {:induction false} ApplySomeAll(ps: Peers, cs: seq<PeerCfg>, mask: seq<bool>)
    requires |mask| == |cs| && forall i :: 0 <= i < |mask| ==> mask[i]
    ensures ApplySome(ps, cs, mask) == ApplyPeers(ps, cs)
  {
    if cs != [] {
      ApplySomeAll(ps, cs[..|cs| - 1], mask[..|cs| - 1]);
    }
  }

  /** A call that takes nothing the database grants to an enabled peer. */
  ghost predicate Harmless(c: PeerCfg, peers: seq<Peer>, other: OtherNets) {
    if c.remove
    then forall i :: 0 <= i < |peers| && peers[i].enabled ==> peers[i].key != c.key
    else exists i :: 0 <= i < |peers| && peers[i].enabled && peers[i].key == c.key
           && Elems(c.allowed) == Blocks(peers[i], other)
  }

  lemma HarmlessPeer(snap: map<string, seq<IPNet>>, peers: seq<Peer>, i: nat, other: OtherNets)
    requires DistinctKeys(peers) && i < |peers|
    ensures forall c :: c in PlanPeer(snap, peers[i], other) ==> Harmless(c, peers, other)
  {
  }

  lemma {:induction false} HarmlessPeers(snap: map<string, seq<IPNet>>, peers: seq<Peer>, i: nat, other: OtherNets)
    requires DistinctKeys(peers) && i <= |peers|
    ensures forall c :: c in PlanPeers(snap, peers[..i], other) ==> Harmless(c, peers, other)
  {
    hide Harmless, PlanPeer;
    if i > 0 {
      HarmlessPeers(snap, peers, i - 1, other);
      HarmlessPeer(snap, peers, i - 1, other);
      assert peers[..i][..i - 1] == peers[..i - 1];
    }
  }

  lemma {:induction false} HarmlessOrphans(d: seq<PeerInfo>, peers: seq<Peer>, other: OtherNets)
    ensures forall c :: c in PlanOrphans(d, KeysOf(peers)) ==> Harmless(c, peers, other)
  {
    if d != [] {
      HarmlessOrphans(d[..|d| - 1], peers, other);
      var k := d[|d| - 1].key;
      if k !in KeysOf(peers) {
        forall i | 0 <= i < |peers|
          ensures peers[i].key != k
        {
          KnownKey(peers, i);
        }
        assert Harmless(Removal(k), peers, other);
      }
    }
  }

  lemma PlanHarmless(d: seq<PeerInfo>, peers: seq<Peer>, other: OtherNets)
    requires DistinctKeys(peers)
    ensures forall c :: c in Plan(d, peers, other) ==> Harmless(c, peers, other)
  {
    HarmlessPeers(Index(d), peers, |peers|, other);
    assert peers[..|peers|] == peers;
    HarmlessOrphans(d, peers, other);
  }

  /** Enabled peers stay, and keep every block the database grants them. */
  ghost predicate Keeps(ps: Peers, q: Peers, peers: seq<Peer>, other: OtherNets) {
    forall i :: 0 <= i < |peers| && peers[i].enabled && peers[i].key in ps ==>
      && peers[i].key in q
      && (DisjointBlocks(peers, other) ==> ps[peers[i].key] * Blocks(peers[i], other) <= q[peers[i].key])
  }

  lemma KeepsStep(ps: Peers, q: Peers, c: PeerCfg, peers: seq<Peer>, other: OtherNets)
    requires DistinctKeys(peers) && Harmless(c, peers, other) && Keeps(ps, q, peers, other)
    ensures Keeps(ps, ApplyPeer(q, c), peers, other)
  {
    hide Blocks;
    forall i | 0 <= i < |peers| && peers[i].enabled && peers[i].key in ps
      ensures peers[i].key in ApplyPeer(q, c)
      ensures DisjointBlocks(peers, other) ==>
                ps[peers[i].key] * Blocks(peers[i], other) <= ApplyPeer(q, c)[peers[i].key]
    {
      if !c.remove {
        var j :| 0 <= j < |peers| && peers[j].enabled && peers[j].key == c.key
          && Elems(c.allowed) == Blocks(peers[j], other);
        if i != j {
          assert peers[i].key != peers[j].key;
          assert DisjointBlocks(peers, other) ==> Blocks(peers[i], other) !! Blocks(peers[j], other);
        }
        GrantKeeps(q, c, peers[i].key, ps[peers[i].key], Blocks(peers[i], other));
      }
    }
  }

  /** A grant leaves to every peer the blocks it has that are not granted elsewhere. */
  lemma GrantKeeps(q: Peers, c: PeerCfg, key: string, had: set<IPNet>, own: set<IPNet>)
    requires !c.remove && key in q
    ensures key in ApplyPeer(q, c)
    ensures had * own <= q[key] && (if c.key == key then Elems(c.allowed) == own else Elems(c.allowed) !! own) ==>
              had * own <= ApplyPeer(q, c)[key]
  {
  }

  /** Whichever calls of the plan fail, no enabled database peer is removed and none loses
      a block that the database grants it. */
  lemma {:induction false} PlanSafe(ps: Peers, cs: seq<PeerCfg>, mask: seq<bool>, peers: seq<Peer>, other: OtherNets)
    requires DistinctKeys(peers) && |mask| == |cs|
    requires forall c :: c in cs ==> Harmless(c, peers, other)
    ensures Keeps(ps, ApplySome(ps, cs, mask), peers, other)
  {
    if cs == [] {
      KeepsSelf(ps, peers, other);
    } else {
      hide Keeps, Harmless, ApplyPeer, DistinctKeys;
      var n := |cs| - 1;
      assert cs == cs[..n] + [cs[n]];
      PlanSafe(ps, cs[..n], mask[..n], peers, other);
      if mask[n] {
        KeepsStep(ps, ApplySome(ps, cs[..n], mask[..n]), cs[n], peers, other);
      }
    }
  }

  lemma KeepsSelf(ps: Peers, peers: seq<Peer>, other: OtherNets)
    ensures Keeps(ps, ps, peers, other)
  {
    hide Blocks, DisjointBlocks;
  }
}
