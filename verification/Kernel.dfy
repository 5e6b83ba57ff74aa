/**
 The kernel side of WireGuard: links, their peers and the blocks each peer owns, behind
 calls that may fail at any point.
 */
module Kernel {
  import opened Wrappers
  import opened Cidr
  import opened Collections

  /** Public key to owned blocks, on one device. */
  type Peers = map<string, set<IPNet>>

  datatype PeerCfg = PeerCfg(key: string, remove: bool, updateOnly: bool, replaceAllowed: bool, allowed: seq<IPNet>)

  datatype Link = Link(peers: Peers, addrs: set<string>, port: int, privateKey: string, up: bool)

  datatype PeerInfo = PeerInfo(key: string, allowed: seq<IPNet>)
  datatype DeviceInfo = DeviceInfo(name: string, peers: seq<PeerInfo>)

  /** Every call that changes a link or a device, as issued. */
  datatype Call =
    | CreateLink(name: string)
    | DeleteLink(name: string)
    | SetLinkUp(name: string)
    | SetLinkDown(name: string)
    | AddAddress(name: string, addr: string)
    | SetDevice(name: string, privateKey: string, port: int)
    | SetPeers(name: string, cfgs: seq<PeerCfg>)

  // ----- Configuring one peer -----

  /** A block belongs to one peer only: giving it to one takes it from every other. */
  function Give(ps: Peers, key: string, blocks: set<IPNet>, kept: set<IPNet>): Peers {
    (map k | k in ps :: ps[k] - blocks)[key := kept + blocks]
  }

  function ApplyPeer(ps: Peers, c: PeerCfg): Peers {
    if c.remove then ps - {c.key}
    else if c.updateOnly && c.key !in ps then ps
    else Give(ps, c.key, Elems(c.allowed), if c.replaceAllowed || c.key !in ps then {} else ps[c.key])
  }

  predicate Owns(ps: Peers, key: string, block: IPNet) {
    key in ps && block in ps[key]
  }

  /** One entry, block by block: whose each block is afterwards, and which peers there are. */
  lemma PeerEffect(ps: Peers, c: PeerCfg, key: string, block: IPNet)
    ensures var after := ApplyPeer(ps, c);
            if c.remove then
              && (key in after <==> key in ps && key != c.key)
              && (Owns(after, key, block) <==> Owns(ps, key, block) && key != c.key)
            else if c.updateOnly && c.key !in ps then after == ps
            else
              && (key in after <==> key in ps || key == c.key)
              && (Owns(after, key, block) <==>
                  if block in c.allowed then key == c.key
                  else Owns(ps, key, block) && (key == c.key ==> !c.replaceAllowed))
  {
    assert block in Elems(c.allowed) <==> block in c.allowed;
  }

  function ApplyPeers(ps: Peers, cs: seq<PeerCfg>): Peers {
    if cs == [] then ps else ApplyPeer(ApplyPeers(ps, cs[..|cs| - 1]), cs[|cs| - 1])
  }

  // ----- Reading back -----

  ghost predicate Describes(d: seq<PeerInfo>, ps: Peers) {
    && (forall i, j :: 0 <= i < j < |d| ==> d[i].key != d[j].key)
    && (forall i :: 0 <= i < |d| ==> d[i].key in ps && NoRepeats(d[i].allowed) && Elems(d[i].allowed) == ps[d[i].key])
    && (forall k :: k in ps ==> exists i :: 0 <= i < |d| && d[i].key == k)
  }

  ghost predicate DescribesAll(ds: seq<DeviceInfo>, links: map<string, Link>) {
    && (forall i, j :: 0 <= i < j < |ds| ==> ds[i].name != ds[j].name)
    && (forall i :: 0 <= i < |ds| ==> ds[i].name in links && Describes(ds[i].peers, links[ds[i].name].peers))
    && (forall n :: n in links ==> exists i :: 0 <= i < |ds| && ds[i].name == n)
  }

  method DescribePeers(ps: Peers) returns (d: seq<PeerInfo>)
    ensures Describes(d, ps)
  {
    var keys := Enumerate(ps.Keys);
    d := [];
    assert forall k :: k in ps ==> k in Elems(keys);
    assert forall k :: k in keys ==> k in Elems(keys);
    for i := 0 to |keys|
      invariant |d| == i
      invariant forall x :: 0 <= x < i ==>
                  d[x].key == keys[x] && NoRepeats(d[x].allowed) && Elems(d[x].allowed) == ps[keys[x]]
    {
      var blocks := Enumerate(ps[keys[i]]);
      d := d + [PeerInfo(keys[i], blocks)];
    }
    forall k | k in ps
      ensures exists i :: 0 <= i < |d| && d[i].key == k
    {
      var i :| 0 <= i < |keys| && keys[i] == k;
      assert d[i].key == k;
    }
  }

  lemma AllDescribed(names: seq<string>, ds: seq<DeviceInfo>, links: map<string, Link>)
    requires |ds| == |names| && NoRepeats(names) && Elems(names) == links.Keys
    requires forall x :: 0 <= x < |names| ==>
               names[x] in links && ds[x].name == names[x] && Describes(ds[x].peers, links[names[x]].peers)
    ensures DescribesAll(ds, links)
  {
    forall n | n in links
      ensures exists i :: 0 <= i < |ds| && ds[i].name == n
    {
      assert n in Elems(names);
      var i :| 0 <= i < |names| && names[i] == n;
      assert ds[i].name == n;
    }
  }

  ghost predicate ValidLinks(links: map<string, Link>) {
    forall n, k, b :: n in links && k in links[n].peers && b in links[n].peers[k] ==> ValidNet(b)
  }

  // ----- The kernel and its calls -----

  class Host {
    var links: map<string, Link>
    var log: seq<Call>   // every link- or device-changing call, failed ones included
    var tick: nat        // calls issued so far, of any kind

    /** Some(n) makes the call at that tick fail, with its first n peer entries in effect. */
    const fault: nat -> Option<nat>

    constructor (links: map<string, Link>, fault: nat -> Option<nat>)
      ensures this.links == links && this.fault == fault && log == [] && tick == 0
    {
      this.links, this.fault, this.log, this.tick := links, fault, [], 0;
    }

    /** A read that changes nothing in the kernel. */
    method Read() returns (ok: bool)
      modifies this`tick
      ensures tick == old(tick) + 1 && ok == fault(old(tick)).None?
    {
      ok := fault(tick).None?;
      tick := tick + 1;
    }

    method Devices() returns (r: Option<seq<DeviceInfo>>)
      modifies this`tick
      ensures tick == old(tick) + 1 && r.Some? == fault(old(tick)).None?
      ensures r.Some? ==> DescribesAll(r.value, links)
    {
      var ok := Read();
      if !ok { return None; }
      var names := Enumerate(links.Keys);
      assert forall x :: 0 <= x < |names| ==> names[x] in Elems(names);
      var ds: seq<DeviceInfo> := [];
      for i := 0 to |names|
        invariant tick == old(tick) + 1 && |ds| == i
        invariant forall x :: 0 <= x < i ==> ds[x].name == names[x] && Describes(ds[x].peers, links[names[x]].peers)
      {
        var d := DescribePeers(links[names[i]].peers);
        ds := ds + [DeviceInfo(names[i], d)];
      }
      AllDescribed(names, ds, links);
      return Some(ds);
    }

    method Device(name: string) returns (r: Option<DeviceInfo>)
      modifies this`tick
      ensures tick == old(tick) + 1
      ensures r.Some? == (fault(old(tick)).None? && name in links)
      ensures r.Some? ==> r.value.name == name && Describes(r.value.peers, links[name].peers)
    {
      var ok := Read();
      if !ok || name !in links { return None; }
      var d := DescribePeers(links[name].peers);
      return Some(DeviceInfo(name, d));
    }

    /** How many of `n` peer entries the call at `t` puts in effect. */
    function Reach(t: nat, n: nat): (k: nat)
      ensures k <= n && (fault(t).None? ==> k == n)
    {
      match fault(t)
      case None => n
      case Some(k) => if k < n then k else n
    }

    method ConfigurePeers(name: string, cfgs: seq<PeerCfg>) returns (ok: bool)
      modifies this
      ensures tick == old(tick) + 1 && log == old(log) + [SetPeers(name, cfgs)]
      ensures ok == (fault(old(tick)).None? && name in old(links))
      ensures name !in old(links) ==> links == old(links)
      ensures name in old(links) ==>
                links == old(links)[name := old(links)[name].(peers :=
                  ApplyPeers(old(links)[name].peers, cfgs[..Reach(old(tick), |cfgs|)]))]
    {
      log := log + [SetPeers(name, cfgs)];
      ok := fault(tick).None? && name in links;
      if name in links {
        links := links[name := links[name].(peers := ApplyPeers(links[name].peers, cfgs[..Reach(tick, |cfgs|)]))];
      }
      tick := tick + 1;
    }

    method ConfigureDevice(name: string, privateKey: string, port: int) returns (ok: bool)
      modifies this
      ensures tick == old(tick) + 1 && log == old(log) + [SetDevice(name, privateKey, port)]
      ensures ok == (fault(old(tick)).None? && name in old(links))
      ensures !ok ==> links == old(links)
      ensures ok ==> links == old(links)[name := old(links)[name].(privateKey := privateKey, port := port)]
    {
      log := log + [SetDevice(name, privateKey, port)];
      ok := fault(tick).None? && name in links;
      tick := tick + 1;
      if ok { links := links[name := links[name].(privateKey := privateKey, port := port)]; }
    }

    method CreateWireGuardLink(name: string) returns (ok: bool)
      modifies this
      ensures tick == old(tick) + 1 && log == old(log) + [CreateLink(name)]
      ensures ok == (fault(old(tick)).None? && name !in old(links))
      ensures !ok ==> links == old(links)
      ensures ok ==> links == old(links)[name := Link(map[], {}, 0, "", false)]
    {
      log := log + [CreateLink(name)];
      ok := fault(tick).None? && name !in links;
      tick := tick + 1;
      if ok { links := links[name := Link(map[], {}, 0, "", false)]; }
    }

    method RemoveLink(name: string) returns (ok: bool)
      modifies this
      ensures tick == old(tick) + 1 && log == old(log) + [DeleteLink(name)]
      ensures ok == (fault(old(tick)).None? && name in old(links))
      ensures links == if ok then old(links) - {name} else old(links)
    {
      log := log + [DeleteLink(name)];
      ok := fault(tick).None? && name in links;
      tick := tick + 1;
      if ok { links := links - {name}; }
    }

    method SetLink(name: string, up: bool) returns (ok: bool)
      modifies this
      ensures tick == old(tick) + 1
      ensures log == old(log) + [if up then SetLinkUp(name) else SetLinkDown(name)]
      ensures ok == (fault(old(tick)).None? && name in old(links))
      ensures !ok ==> links == old(links)
      ensures ok ==> links == old(links)[name := old(links)[name].(up := up)]
    {
      log := log + [if up then SetLinkUp(name) else SetLinkDown(name)];
      ok := fault(tick).None? && name in links;
      tick := tick + 1;
      if ok { links := links[name := links[name].(up := up)]; }
    }

    method AssignAddress(name: string, addr: string) returns (ok: bool)
      modifies this
      ensures tick == old(tick) + 1 && log == old(log) + [AddAddress(name, addr)]
      ensures ok == (fault(old(tick)).None? && name in old(links))
      ensures !ok ==> links == old(links)
      ensures ok ==> links == old(links)[name := old(links)[name].(addrs := old(links)[name].addrs + {addr})]
    {
      log := log + [AddAddress(name, addr)];
      ok := fault(tick).None? && name in links;
      tick := tick + 1;
      if ok { links := links[name := links[name].(addrs := links[name].addrs + {addr})]; }
    }
  }
}
