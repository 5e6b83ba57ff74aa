/**
 Two readings of one AllowedIPs column: the blocks the kernel is given, and the addresses
 collected as used.  Every single address among the blocks is among the addresses.
 */
module UsedHosts {
  import opened Wrappers
  import opened Text
  import opened Cidr
  import opened Inventory
  import S = PeerSync

  /** The block of one address, as tunnels are. */
  function Host(a: nat): IPNet {
    V4(a, 32)
  }

  /** The library reads one text in one way: it takes no white space around it, and where the
      block is a single IPv4 address, that is the address. */
  ghost predicate Consistent(nets: S.OtherNets, other: OtherAddrs) {
    forall t :: nets(t).Some? ==>
      && Unspaced(t)
      && (nets(t).value.V4? && nets(t).value.ones == 32 && nets(t).value.base < ADDRESSES ==>
            other(t) == Some(PrintIPv4(nets(t).value.base)))
  }

  // ----- The two ways of trimming -----

  lemma {:induction false} StripLeftBounds(s: string, cut: char -> bool) returns (j: nat)
    ensures j <= |s| && StripLeft(s, cut) == s[j..] && (j < |s| ==> !cut(s[j]))
    ensures forall x :: 0 <= x < j ==> cut(s[x])
  {
    j := 0;
    if s != "" && cut(s[0]) {
      var k := StripLeftBounds(s[1..], cut);
      j := k + 1;
    }
  }

  lemma {:induction false} StripRightBounds(s: string, cut: char -> bool) returns (k: nat)
    ensures k <= |s| && StripRight(s, cut) == s[..k] && (k > 0 ==> !cut(s[k - 1]))
    ensures forall x :: k <= x < |s| ==> cut(s[x])
    decreases |s|
  {
    k := |s|;
    if s != "" && cut(s[|s| - 1]) {
      k := StripRightBounds(s[..|s| - 1], cut);
    }
  }

  /** Where only blanks surround a text without white space at its ends, both ways agree. */
  lemma TrimSame(part: string, t: string)
    requires Strip(part, IsBlank) == t && t != "" && Unspaced(t)
    ensures TrimSpace(part) == t
  {
    var j := StripLeftBounds(part, IsBlank);
    var k := StripRightBounds(part[j..], IsBlank);
    assert t == part[j..j + k];
    assert part[j] == t[0] && part[j + k - 1] == t[|t| - 1];
    forall x | j + k <= x < |part|
      ensures IsSpace(part[x])
    {
      assert part[x] == part[j..][x - j];
    }
    StripAt(part, j, j + k, IsSpace);
  }

  lemma CidrUnspaced(t: string)
    requires ParseCIDR4(t).Some?
    ensures t != "" && Unspaced(t)
  {
    var i := IndexOf(t, '/');
    EmptyIsNoAddress();
    assert t[0] == t[..i][0];
    if IsSpace(t[0]) {
      ParsedIPv4Only(t[..i], t[0]);
    }
    assert t[|t| - 1] == t[i + 1..][|t| - i - 2];
  }

  lemma EmptyIsNoAddress()
    ensures ParseIPv4("").None?
  {
    SplitWhole("", '.');
  }

  // ----- One part, one list, all peers -----

  lemma AddrOf(part: string, t: string, a: nat, nets: S.OtherNets, other: OtherAddrs)
    requires Consistent(nets, other) && a < ADDRESSES && Kept(part) == [t] && ParseNet(t, nets) == Some(Host(a))
    ensures AddrText(part, other) == Some(PrintIPv4(a))
  {
    hide ParseCIDR4, PrintIPv4, TrimSpace, Strip, Masked;
    KeptIs(part, t);
    match ParseCIDR4(t)
    case Some(p) =>
      CidrUnspaced(t);
      TrimSame(part, t);
      MaskedUnique(p.0, p.0, 32);
    case None =>
      TrimSame(part, t);
  }

  lemma KeptIs(part: string, t: string)
    requires Kept(part) == [t]
    ensures Strip(part, IsBlank) == t && t != ""
  {
  }

  lemma {:induction false} HostInParts(parts: seq<string>, a: nat, nets: S.OtherNets, other: OtherAddrs)
    requires Consistent(nets, other) && a < ADDRESSES
    requires ParseParts(TrimmedParts(parts), nets).Some? && Host(a) in ParseParts(TrimmedParts(parts), nets).value
    ensures PrintIPv4(a) in PartTexts(parts, other)
  {
    hide ParseNet, AddrText, PrintIPv4, Consistent, Kept;
    if parts != [] {
      var n := |parts| - 1;
      var kept := Kept(parts[n]);
      KeptAtMostOne(parts[n]);
      if kept != [] {
        ParsePartsSnoc(TrimmedParts(parts[..n]), kept[0], nets);
        assert kept == [kept[0]];
        if ParseNet(kept[0], nets) == Some(Host(a)) {
          AddrOf(parts[n], kept[0], a, nets, other);
        } else {
          HostInParts(parts[..n], a, nets, other);
        }
      } else {
        assert TrimmedParts(parts) == TrimmedParts(parts[..n]);
        HostInParts(parts[..n], a, nets, other);
      }
    }
  }

  lemma KeptAtMostOne(part: string)
    ensures |Kept(part)| <= 1
  {
  }

  /** A single address in the list of a peer is collected as used in its network. */
  lemma {:induction false} HostIsUsed(peers: seq<Peer>, i: nat, a: nat, nets: S.OtherNets, other: OtherAddrs)
    requires Consistent(nets, other) && a < ADDRESSES && i < |peers|
    requires Host(a) in S.BlocksIn(peers[i].allowedIPs, nets)
    ensures PrintIPv4(a) in UsedTexts(peers, peers[i].network, other)
  {
    hide ParseParts, PartTexts, PrintIPv4, Consistent, Split, TrimmedParts;
    var n := |peers| - 1;
    if i < n {
      HostIsUsed(peers[..n], i, a, nets, other);
    } else {
      HostInParts(Split(peers[i].allowedIPs, ','), a, nets, other);
    }
  }
}
