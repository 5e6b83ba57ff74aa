/**
 The kernel and firewall steps behind the create handlers, with their clean-up, and what a
 failure part-way leaves behind.
 */
module Provision {
  import opened Wrappers
  import opened Cidr
  import opened Text
  import opened NftRules
  import H = NftHistory
  import N = NftManager
  import K = Kernel
  import S = PeerSync
  import R = Reconcile

  // ----- A network -----

  /** The firewall calls for a new network, in order. */
  function Calls(n: R.Network, masq: bool, interPeer: bool): seq<H.Op> {
    [H.OpenPort(n.port)] + (if masq then [H.AddNat(n.iface, n.subnet)] else [])
      + (if interPeer then [H.EnableForward(n.iface)] else [])
  }

  function AddOne(rules: map<string, Rule>, op: H.Op): map<string, Rule> {
    if H.OpKey(op) in rules || H.OpRule(op).None? then rules else rules[H.OpKey(op) := H.OpRule(op).value]
  }

  /** The rule map after the given adds have all succeeded. */
  function AddAll(rules: map<string, Rule>, ops: seq<H.Op>): map<string, Rule> {
    if ops == [] then rules else AddOne(AddAll(rules, ops[..|ops| - 1]), ops[|ops| - 1])
  }

  lemma StepAdds(s: H.State, op: H.Op, outcome: H.Outcome)
    requires H.OpRule(op).Some? && !op.AddBridge?
    ensures var (s', ok) := H.Step(s, op, outcome);
            s'.rules == (if ok then AddOne(s.rules, op) else s.rules) && (outcome.Fine? ==> ok)
  {
  }

  lemma AddAllSnoc(rules: map<string, Rule>, ops: seq<H.Op>, op: H.Op)
    ensures AddAll(rules, ops + [op]) == AddOne(AddAll(rules, ops), op)
  {
    assert (ops + [op])[..|ops|] == ops;
  }

  lemma AddNone(rules: map<string, Rule>)
    ensures AddAll(rules, []) == rules
  {
  }

  ghost predicate NeverFails(nft: N.Manager) {
    forall t: nat :: nft.applier.outcome(t).Fine?
  }

  /** The firewall half: stops at the first call that fails.  `done` are the calls that went
      through. */
  method OpenFirewall(nft: N.Manager, n: R.Network, masq: bool, interPeer: bool)
    returns (ok: bool, ghost done: seq<H.Op>)
    requires nft.applier.Valid()
    modifies nft, nft.applier
    ensures nft.applier.Valid() && nft.rules == AddAll(old(nft.rules), done)
    ensures done <= Calls(n, masq, interPeer) && (ok <==> done == Calls(n, masq, interPeer))
    ensures NeverFails(nft) ==> ok
  {
    hide AddAll, AddOne, H.Step, H.OpKey, NatKey, ForwardKey, UdpKey;
    done := [];
    AddNone(nft.rules);
    ghost var was := nft.View();
    StepAdds(was, H.OpenPort(n.port), nft.Next());
    ok := nft.OpenUDPPort(n.port);
    if !ok { return; }
    AddAllSnoc(old(nft.rules), done, H.OpenPort(n.port));
    done := [] + [H.OpenPort(n.port)];
    if masq {
      StepAdds(nft.View(), H.AddNat(n.iface, n.subnet), nft.Next());
      ok := nft.AddNATMasquerade(n.iface, n.subnet);
      if !ok { return; }
      AddAllSnoc(old(nft.rules), done, H.AddNat(n.iface, n.subnet));
      done := done + [H.AddNat(n.iface, n.subnet)];
    }
    if interPeer {
      StepAdds(nft.View(), H.EnableForward(n.iface), nft.Next());
      ok := nft.EnableInterPeerForwarding(n.iface);
      if !ok { return; }
      AddAllSnoc(old(nft.rules), done, H.EnableForward(n.iface));
      done := done + [H.EnableForward(n.iface)];
    }
  }

  /** Interface, firewall, row; `stored` is the outcome of the insert.  When a later step fails
      the interface is deleted again, but the rules added before it stay. */
  method MakeNetwork(wg: R.Manager, nft: N.Manager, n: R.Network, masq: bool, interPeer: bool, stored: bool)
    returns (ok: bool, ghost done: seq<H.Op>)
    requires nft.applier.Valid()
    modifies wg.host, nft, nft.applier
    ensures nft.applier.Valid() && nft.rules == AddAll(old(nft.rules), done) && done <= Calls(n, masq, interPeer)
    ensures ok ==> done == Calls(n, masq, interPeer) && stored && ParseNet(n.subnet, wg.other).Some?
    ensures ok ==> n.iface !in old(wg.host.links)
    ensures ok ==>
              var made := R.NewLink(n, ParseNet(n.subnet, wg.other).value, wg.first6);
              wg.host.links == old(wg.host.links)[n.iface := made]
    ensures forall m :: m != n.iface ==> R.SameAt(old(wg.host.links), wg.host.links, m)
    ensures n.iface in old(wg.host.links) ==> wg.host.links == old(wg.host.links) && done == []
    ensures wg.NoFaults() && !ok ==> wg.host.links == old(wg.host.links)
    ensures wg.NoFaults() && n.iface !in old(wg.host.links) && ParseNet(n.subnet, wg.other).Some? ==>
              (ok <==> done == Calls(n, masq, interPeer) && stored) && (NeverFails(nft) && stored ==> ok)
  {
    hide AddAll, ParseNet, R.NewLink;
    ghost var before := wg.host.links;
    ok := wg.CreateInterface(n);
    if !ok {
      done := [];
      AddNone(nft.rules);
      Elsewhere(before, wg.host.links, n.iface);
      return;
    }
    ok, done := OpenFirewall(nft, n, masq, interPeer);
    ok := ok && stored;
    if !ok {
      ghost var mid := wg.host.links;
      var gone := wg.DeleteInterface(n.iface);
      Restored(before, mid, wg.host.links, n.iface);
    }
  }

  lemma Elsewhere(before: map<string, K.Link>, after: map<string, K.Link>, name: string)
    requires after == before || after - {name} == before
    ensures forall m :: m != name ==> R.SameAt(before, after, m)
  {
    forall m | m != name
      ensures R.SameAt(before, after, m)
    {
      assert R.SameAt(after - {name}, after, m);
    }
  }

  lemma Restored(before: map<string, K.Link>, mid: map<string, K.Link>, after: map<string, K.Link>, name: string)
    requires name !in before && (forall m :: m != name ==> R.SameAt(mid, after, m))
    requires name in mid && mid == before[name := mid[name]]
    ensures forall m :: m != name ==> R.SameAt(before, after, m)
    ensures name !in after ==> after == before
  {
    forall m | m != name
      ensures R.SameAt(before, after, m)
    {
      assert R.SameAt(mid, after, m);
    }
    if name !in after {
      forall m | m in before || m in after
        ensures m in before && m in after && before[m] == after[m]
      {
        assert R.SameAt(before, after, m);
      }
    }
  }

  lemma {:induction false} AddAllGrows(rules: map<string, Rule>, ops: seq<H.Op>)
    ensures rules.Keys <= AddAll(rules, ops).Keys
  {
    if ops != [] {
      AddAllGrows(rules, ops[..|ops| - 1]);
    }
  }

  /** Adds leave the map as it was if and only if every one of them found its key there. */
  lemma {:induction false} AddsNothingExactly(rules: map<string, Rule>, ops: seq<H.Op>)
    requires forall i :: 0 <= i < |ops| ==> H.OpRule(ops[i]).Some?
    ensures AddAll(rules, ops) == rules <==> forall i :: 0 <= i < |ops| ==> H.OpKey(ops[i]) in rules
  {
    hide H.OpKey, H.OpRule;
    if ops != [] {
      var n := |ops| - 1;
      AddsNothingExactly(rules, ops[..n]);
      AddAllGrows(rules, ops[..n]);
      if AddAll(rules, ops) == rules {
        assert H.OpKey(ops[n]) in rules;
        assert AddAll(rules, ops[..n]) == rules;
      }
    }
  }

  /** A failed create leaves the rule map as it was if and only if every rule it had added by
      then was there before: rules are not taken back. */
  lemma RulesStayExactly(rules: map<string, Rule>, n: R.Network, masq: bool, interPeer: bool, done: seq<H.Op>)
    requires done <= Calls(n, masq, interPeer)
    ensures AddAll(rules, done) == rules <==> forall i :: 0 <= i < |done| ==> H.OpKey(done[i]) in rules
  {
    forall i | 0 <= i < |done|
      ensures H.OpRule(done[i]).Some?
    {
      assert done[i] == Calls(n, masq, interPeer)[i];
    }
    AddsNothingExactly(rules, done);
  }

  /** So a network on a new port whose row could not be stored leaves that port open. */
  lemma PortStaysOpen(rules: map<string, Rule>, n: R.Network, masq: bool, interPeer: bool)
    requires UdpKey(n.port) !in rules
    ensures AddAll(rules, Calls(n, masq, interPeer)) != rules
  {
    hide UdpKey;
    RulesStayExactly(rules, n, masq, interPeer, Calls(n, masq, interPeer));
    assert H.OpKey(Calls(n, masq, interPeer)[0]) == UdpKey(n.port);
  }

  // ----- Taking a network away -----

  /** Keys of the rules that go with a network. */
  function KeysFor(iface: string, port: int, masq: bool, interPeer: bool, bridges: seq<string>): set<string> {
    (set b | b in bridges :: BridgeKey(iface, b)) + {UdpKey(port)} + (if masq then {NatKey(iface)} else {})
      + (if interPeer then {ForwardKey(iface)} else {})
  }

  lemma StepRemoves(s: H.State, op: H.Op, outcome: H.Outcome)
    requires H.OpRule(op).None?
    ensures var (s', ok) := H.Step(s, op, outcome);
            s'.rules == (if ok then s.rules - {H.OpKey(op)} else s.rules) && (outcome.Fine? ==> ok)
  {
  }

  /** So far exactly the rules under `gone` have been removed, all that were tried if the
      applier never fails. */
  ghost predicate Removed(nft: N.Manager, was: map<string, Rule>, tried: set<string>, gone: set<string>)
    reads nft, nft.applier
  {
    && nft.applier.Valid() && gone <= tried && nft.rules == was - gone
    && (NeverFails(nft) ==> gone == tried)
  }

  lemma OneMoreGone(was: map<string, Rule>, gone: set<string>, key: string)
    ensures was - gone - {key} == was - (gone + {key})
  {
  }

  /** Bridges first, then port, masquerade and forwarding; a failure is logged and the next
      removal tried. */
  method CloseFirewall(nft: N.Manager, iface: string, port: int, masq: bool, interPeer: bool, bridges: seq<string>)
    returns (ghost gone: set<string>)
    requires nft.applier.Valid()
    modifies nft, nft.applier
    ensures Removed(nft, old(nft.rules), KeysFor(iface, port, masq, interPeer, bridges), gone)
  {
    hide H.Step, BridgeKey, UdpKey, NatKey, ForwardKey;
    ghost var was := nft.rules;
    ghost var tried: set<string>;
    gone, tried := {}, {};
    for i := 0 to |bridges|
      invariant Removed(nft, was, tried, gone) && tried == set b | b in bridges[..i] :: BridgeKey(iface, b)
    {
      NextBridge(iface, bridges, i);
      ghost var op := H.RemoveBridge(iface, bridges[i]);
      StepRemoves(nft.View(), op, nft.Next());
      OneMoreGone(was, gone, H.OpKey(op));
      var ok := nft.RemoveNetworkBridge(iface, bridges[i]);
      gone, tried := if ok then gone + {H.OpKey(op)} else gone, tried + {H.OpKey(op)};
    }
    assert bridges[..|bridges|] == bridges;
    StepRemoves(nft.View(), H.ClosePort(port), nft.Next());
    OneMoreGone(was, gone, UdpKey(port));
    var closed := nft.CloseUDPPort(port);
    gone, tried := if closed then gone + {UdpKey(port)} else gone, tried + {UdpKey(port)};
    if masq {
      StepRemoves(nft.View(), H.RemoveNat(iface), nft.Next());
      OneMoreGone(was, gone, NatKey(iface));
      var ok := nft.RemoveNATMasquerade(iface);
      gone, tried := if ok then gone + {NatKey(iface)} else gone, tried + {NatKey(iface)};
    }
    if interPeer {
      StepRemoves(nft.View(), H.DisableForward(iface), nft.Next());
      OneMoreGone(was, gone, ForwardKey(iface));
      var ok := nft.DisableInterPeerForwarding(iface);
      gone, tried := if ok then gone + {ForwardKey(iface)} else gone, tried + {ForwardKey(iface)};
    }
  }

  lemma NextBridge(iface: string, bridges: seq<string>, i: nat)
    requires i < |bridges|
    ensures (set b | b in bridges[..i + 1] :: BridgeKey(iface, b))
         == (set b | b in bridges[..i] :: BridgeKey(iface, b)) + {BridgeKey(iface, bridges[i])}
  {
    hide BridgeKey;
    assert bridges[..i + 1] == bridges[..i] + [bridges[i]];
  }

  // ----- What a network owns in the firewall -----

  /** Its port, its masquerade and its inter-peer rule, each under its key. */
  function Own(n: R.Network, masq: bool, interPeer: bool): map<string, Rule> {
    map["udp:" + PrintInt(n.port) := Rule(UdpInput, "", "", "", "", n.port)]
      + (if masq then map["nat:" + n.iface := Rule(NatMasquerade, n.iface, "", n.subnet, "", 0)] else map[])
      + (if interPeer then map["forward:" + n.iface := Rule(InterPeer, n.iface, "", "", "", 0)] else map[])
  }

  lemma KeysApart(iface: string, port: int)
    ensures UdpKey(port) != NatKey(iface) && UdpKey(port) != ForwardKey(iface) && NatKey(iface) != ForwardKey(iface)
  {
    assert UdpKey(port)[0] == 'u' && NatKey(iface)[0] == 'n' && ForwardKey(iface)[0] == 'f';
  }

  /** One more add on top of others, or none; what was there is not overwritten. */
  lemma AddedOnTop(rules: map<string, Rule>, own: map<string, Rule>, calls: seq<H.Op>, on: bool, op: H.Op, r: Rule)
    requires AddAll(rules, calls) == own + rules && H.OpRule(op) == Some(r) && H.OpKey(op) !in own
    ensures AddAll(rules, calls + (if on then [op] else []))
         == own + (if on then map[H.OpKey(op) := r] else map[]) + rules
  {
    hide H.OpKey, H.OpRule, AddAll;
    AddAllSnoc(rules, calls, op);
    assert calls + [] == calls && own + map[] == own;
  }

  /** The calls of a create add exactly those, and change no rule that was there. */
  lemma AddsOwn(rules: map<string, Rule>, n: R.Network, masq: bool, interPeer: bool)
    ensures AddAll(rules, Calls(n, masq, interPeer)) == Own(n, masq, interPeer) + rules
  {
    hide UdpKey, NatKey, ForwardKey, AddAll, AddOne, Own, UdpRule, NatRule, ForwardRule;
    OwnKeys(n, masq, interPeer);
    KeysApart(n.iface, n.port);
    AddsPort(rules, n.port);
    var own, calls := map[UdpKey(n.port) := UdpRule(n.port)], [H.OpenPort(n.port)];
    AddedOnTop(rules, own, calls, masq, H.AddNat(n.iface, n.subnet), NatRule(n.iface, n.subnet));
    own := own + (if masq then map[NatKey(n.iface) := NatRule(n.iface, n.subnet)] else map[]);
    calls := calls + (if masq then [H.AddNat(n.iface, n.subnet)] else []);
    AddedOnTop(rules, own, calls, interPeer, H.EnableForward(n.iface), ForwardRule(n.iface));
  }

  lemma AddsPort(rules: map<string, Rule>, port: int)
    ensures AddAll(rules, [H.OpenPort(port)]) == map[UdpKey(port) := UdpRule(port)] + rules
  {
    hide UdpKey, AddAll;
    AddNone(rules);
    AddAllSnoc(rules, [], H.OpenPort(port));
    assert [] + [H.OpenPort(port)] == [H.OpenPort(port)];
  }

  lemma OwnKeys(n: R.Network, masq: bool, interPeer: bool)
    ensures Own(n, masq, interPeer) ==
            map[UdpKey(n.port) := UdpRule(n.port)]
            + (if masq then map[NatKey(n.iface) := NatRule(n.iface, n.subnet)] else map[])
            + (if interPeer then map[ForwardKey(n.iface) := ForwardRule(n.iface)] else map[])
  {
  }

  ghost predicate Masquerades(rules: map<string, Rule>, iface: string) {
    exists k :: k in rules && rules[k].kind.NatMasquerade? && rules[k].iface == iface
  }

  /** With the flag the interface is masqueraded after a create; without it nothing changes. */
  lemma MasqueradesExactly(rules: map<string, Rule>, n: R.Network, masq: bool, interPeer: bool, iface: string)
    requires H.WellKeyed(rules)
    ensures Masquerades(AddAll(rules, Calls(n, masq, interPeer)), iface) <==>
            (masq && iface == n.iface) || Masquerades(rules, iface)
  {
    hide AddAll, UdpKey, NatKey, ForwardKey, Calls, Own, Masquerades;
    AddsOwn(rules, n, masq, interPeer);
    OwnMasquerades(n, masq, interPeer, iface);
    MergedMasquerades(Own(n, masq, interPeer), rules, iface);
  }

  /** Of a rule added under its key and one already there, the same interface is masqueraded. */
  lemma MergedMasquerades(own: map<string, Rule>, rules: map<string, Rule>, iface: string)
    requires H.WellKeyed(rules) && H.WellKeyed(own)
    ensures Masquerades(own + rules, iface) <==> Masquerades(own, iface) || Masquerades(rules, iface)
  {
    hide RuleKey, NatKey;
    var all := own + rules;
    if Masquerades(rules, iface) {
      var k :| k in rules && rules[k].kind.NatMasquerade? && rules[k].iface == iface;
      assert all[k] == rules[k];
    }
    if Masquerades(own, iface) {
      var k :| k in own && own[k].kind.NatMasquerade? && own[k].iface == iface;
      assert k in all;
      NatIsKeyed(own[k], iface);
      if k in rules {
        NatKeyed(rules[k], iface);
      }
    }
  }

  lemma NatIsKeyed(r: Rule, iface: string)
    requires r.kind.NatMasquerade? && r.iface == iface
    ensures RuleKey(r) == NatKey(iface)
  {
  }

  lemma OwnMasquerades(n: R.Network, masq: bool, interPeer: bool, iface: string)
    ensures H.WellKeyed(Own(n, masq, interPeer))
    ensures Masquerades(Own(n, masq, interPeer), iface) <==> masq && iface == n.iface
  {
    hide UdpKey, NatKey, ForwardKey, Own;
    OwnKeys(n, masq, interPeer);
    KeysApart(n.iface, n.port);
    if masq && iface == n.iface {
      assert NatKey(iface) in Own(n, masq, interPeer);
    }
  }

  lemma NatKeyed(r: Rule, iface: string)
    requires RuleKey(r) == NatKey(iface)
    ensures r.kind.NatMasquerade? && r.iface == iface
  {
    NatLetter(r);
    NatLetter(NatRule(iface, ""));
    TailEqual("nat:", r.iface, iface);
  }

  lemma NatLetter(r: Rule)
    ensures RuleKey(r) != "" && (RuleKey(r)[0] == 'n' <==> r.kind.NatMasquerade?)
  {
  }

  /** A create followed by a delete gives the rules back if and only if none of the keys that
      the delete removes was in use before. */
  lemma CreateThenDelete(rules: map<string, Rule>, n: R.Network, masq: bool, interPeer: bool, bridges: seq<string>)
    ensures var keys := KeysFor(n.iface, n.port, masq, interPeer, bridges);
            && AddAll(rules, Calls(n, masq, interPeer)) - keys == rules - keys
            && (AddAll(rules, Calls(n, masq, interPeer)) - keys == rules <==> rules.Keys !! keys)
  {
    hide AddAll, UdpKey, NatKey, ForwardKey, BridgeKey, Calls;
    AddsOwn(rules, n, masq, interPeer);
    OwnKeys(n, masq, interPeer);
    OwnRemoved(Own(n, masq, interPeer), rules, KeysFor(n.iface, n.port, masq, interPeer, bridges));
  }

  lemma OwnRemoved(own: map<string, Rule>, rules: map<string, Rule>, keys: set<string>)
    requires own.Keys <= keys
    ensures (own + rules) - keys == rules - keys
    ensures rules - keys == rules <==> rules.Keys !! keys
  {
    assert (rules - keys).Keys == rules.Keys - keys;
    if rules.Keys !! keys {
      assert rules.Keys - keys == rules.Keys;
    }
  }

  // ----- A peer -----

  /** The peer was added to the device, and unless all went well removed again. */
  ghost predicate PeerTried(before: map<string, K.Link>, after: map<string, K.Link>, iface: string, key: string,
                            blocks: set<IPNet>, ok: bool)
  {
    && iface in before && iface in after && (forall m :: m != iface ==> R.SameAt(before, after, m))
    && after[iface].peers ==
       if ok then K.Give(before[iface].peers, key, blocks, {}) else AddedThenRemoved(before[iface].peers, key, blocks)
  }

  /** Kernel, then row; `stored` is the outcome of the insert.  When that fails the peer is
      removed from the device again. */
  method MakePeer(wg: R.Manager, iface: string, p: S.Peer, stored: bool) returns (ok: bool)
    modifies wg.host
    ensures forall m :: m != iface ==> R.SameAt(old(wg.host.links), wg.host.links, m)
    ensures iface in wg.host.links <==> iface in old(wg.host.links)
    ensures ok ==> stored && iface in old(wg.host.links) && ParseList(p.allowedIPs, wg.other).Some?
    ensures ok ==>
              var c := S.Setting(p.key, false, ParseList(p.allowedIPs, wg.other).value);
              wg.host.links[iface].peers == K.ApplyPeer(old(wg.host.links)[iface].peers, c)
    ensures ParseList(p.allowedIPs, wg.other).None? ==> wg.host.links == old(wg.host.links)
    ensures wg.NoFaults() && iface in old(wg.host.links) && ParseList(p.allowedIPs, wg.other).Some? ==>
              && ok == stored
              && PeerTried(old(wg.host.links), wg.host.links, iface, p.key, S.Blocks(p, wg.other), ok)
    ensures iface !in old(wg.host.links) ==> forall m :: R.SameAt(old(wg.host.links), wg.host.links, m)
  {
    hide ParseList;
    ghost var before := wg.host.links;
    ok := wg.AddPeer(iface, p);
    if !ok { return; }
    ghost var mid := wg.host.links;
    if !stored {
      var _ := wg.RemovePeer(iface, p.key);
      forall m | m != iface
        ensures R.SameAt(before, wg.host.links, m)
      {
        assert R.SameAt(before, mid, m) && R.SameAt(mid, wg.host.links, m);
      }
      ok := false;
    }
  }

  /** What is left of a device after a peer was given blocks and removed again. */
  function AddedThenRemoved(ps: K.Peers, key: string, blocks: set<IPNet>): K.Peers {
    K.Give(ps, key, blocks, {}) - {key}
  }

  /** The clean-up restores the device if and only if the key was new and no other peer held
      one of the blocks: a block taken is not given back. */
  lemma UndoneExactly(ps: K.Peers, key: string, blocks: set<IPNet>)
    ensures AddedThenRemoved(ps, key, blocks) == ps <==> key !in ps && forall k :: k in ps ==> ps[k] !! blocks
  {
    var after := AddedThenRemoved(ps, key, blocks);
    assert forall k :: k in after <==> k in ps && k != key;
    assert forall k :: k in after ==> after[k] == ps[k] - blocks;
    if key !in ps && forall k :: k in ps ==> ps[k] !! blocks {
      forall k | k in ps
        ensures after[k] == ps[k]
      {
        assert ps[k] - blocks == ps[k];
      }
      assert after == ps;
    }
    if after == ps {
      forall k | k in ps
        ensures ps[k] !! blocks
      {
        assert after[k] == ps[k] - blocks;
      }
    }
  }
}
