/** Firewall rules: their keys, and the two ways they are expanded into forward entries. */
module NftRules {
  import opened Text

  datatype Kind = NatMasquerade | InterPeer | Bridge | UdpInput

  datatype Rule = Rule(kind: Kind, iface: string, ifaceB: string, subnet: string, direction: string, port: int)

  function NatRule(iface: string, subnet: string): Rule { Rule(NatMasquerade, iface, "", subnet, "", 0) }
  function ForwardRule(iface: string): Rule { Rule(InterPeer, iface, "", "", "", 0) }
  function BridgeRule(a: string, b: string, direction: string): Rule { Rule(Bridge, a, b, "", direction, 0) }
  function UdpRule(port: int): Rule { Rule(UdpInput, "", "", "", "", port) }

  // ----- String order -----

  /** Lexicographic order, as Go compares strings. */
  predicate Before(a: string, b: string) {
    b != "" && (a == "" || a[0] < b[0] || (a[0] == b[0] && Before(a[1..], b[1..])))
  }

  lemma {:induction false} BeforeTotal(a: string, b: string)
    ensures a == b || Before(a, b) || Before(b, a)
    ensures !(Before(a, b) && Before(b, a))
    ensures !Before(a, a)
    decreases |a|
  {
    if a != "" {
      if b != "" {
        BeforeTotal(a[1..], b[1..]);
        assert a == [a[0]] + a[1..] && b == [b[0]] + b[1..];
      }
      BeforeTotal(a[1..], a[1..]);
    }
  }

  /** The strings agree up to k, where a ends or has the smaller character. */
  predicate DecidesAt(a: string, b: string, k: nat) {
    k <= |a| && k < |b| && a[..k] == b[..k] && (k == |a| || a[k] < b[k])
  }

  lemma {:induction false} WhereDecided(a: string, b: string) returns (k: nat)
    requires Before(a, b)
    ensures DecidesAt(a, b, k)
    decreases |a|
  {
    k := 0;
    if a != "" && a[0] == b[0] {
      var j := WhereDecided(a[1..], b[1..]);
      k := j + 1;
      assert a[..k] == [a[0]] + a[1..][..j] && b[..k] == [b[0]] + b[1..][..j];
    }
  }

  lemma {:induction false} DecidedBefore(a: string, b: string, k: nat)
    requires DecidesAt(a, b, k)
    ensures Before(a, b)
    decreases k
  {
    if k > 0 {
      assert a[..k][0] == a[0] && b[..k][0] == b[0];
      assert a[1..][..k - 1] == a[..k][1..] && b[1..][..k - 1] == b[..k][1..];
      DecidedBefore(a[1..], b[1..], k - 1);
    }
  }

  /** The first character in which the strings differ decides, or else the length. */
  lemma BeforeExactly(a: string, b: string)
    ensures Before(a, b) <==> exists k: nat :: DecidesAt(a, b, k)
  {
    hide Before, DecidesAt;
    if Before(a, b) {
      var k := WhereDecided(a, b);
    }
    if k: nat :| DecidesAt(a, b, k) {
      DecidedBefore(a, b, k);
    }
  }

  lemma {:induction false} BeforeTransitive(a: string, b: string, c: string)
    requires Before(a, b) && Before(b, c)
    ensures Before(a, c)
    decreases |a|
  {
    if a != "" && a[0] == b[0] && b[0] == c[0] {
      BeforeTransitive(a[1..], b[1..], c[1..]);
    }
  }

  // ----- Keys -----

  function SortedPair(a: string, b: string): string {
    if Before(b, a) then b + [':'] + a else a + [':'] + b
  }

  function NatKey(iface: string): string { "nat:" + iface }
  function ForwardKey(iface: string): string { "forward:" + iface }
  function BridgeKey(a: string, b: string): string { "bridge:" + SortedPair(a, b) }
  function UdpKey(port: int): string { "udp:" + PrintInt(port) }

  function RuleKey(r: Rule): string {
    match r.kind
    case NatMasquerade => NatKey(r.iface)
    case InterPeer => ForwardKey(r.iface)
    case Bridge => BridgeKey(r.iface, r.ifaceB)
    case UdpInput => UdpKey(r.port)
  }

  lemma TailEqual(p: string, x: string, y: string)
    requires p + x == p + y
    ensures x == y
  {
    assert (p + x)[|p|..] == x && (p + y)[|p|..] == y;
  }

  lemma PairCanonical(a: string, b: string)
    ensures SortedPair(a, b) == SortedPair(b, a)
  {
    BeforeTotal(a, b);
  }

  predicate Plain(name: string) {
    ':' !in name
  }

  lemma JoinedEqual(a: string, b: string, c: string, d: string)
    requires Plain(a) && Plain(c) && a + [':'] + b == c + [':'] + d
    ensures a == c && b == d
  {
    IndexOfAt(a, ':', b);
    IndexOfAt(c, ':', d);
    var s := a + [':'] + b;
    assert s[..|a|] == a && s[|a| + 1..] == b;
    assert s[..|c|] == c && s[|c| + 1..] == d;
  }

  predicate SamePair(a: string, b: string, c: string, d: string) {
    (a == c && b == d) || (a == d && b == c)
  }

  /** For colon-free names a bridge key stands for one unordered pair. */
  lemma BridgeKeyIdentifies(a: string, b: string, c: string, d: string)
    requires Plain(a) && Plain(b) && Plain(c) && Plain(d)
    ensures BridgeKey(a, b) == BridgeKey(c, d) <==> SamePair(a, b, c, d)
  {
    PairCanonical(a, b);
    if BridgeKey(a, b) == BridgeKey(c, d) {
      TailEqual("bridge:", SortedPair(a, b), SortedPair(c, d));
      var (a', b') := if Before(b, a) then (b, a) else (a, b);
      var (c', d') := if Before(d, c) then (d, c) else (c, d);
      JoinedEqual(a', b', c', d');
    }
  }

  /** With a colon inside a name, two different pairs can share a key. */
  lemma ColonNamesCollide()
    ensures BridgeKey("a:b", "c") == BridgeKey("a", "b:c") && !SamePair("a:b", "c", "a", "b:c")
  {
    assert !Before("c", "a:b") && !Before("b:c", "a");
    assert "a:b" + [':'] + "c" == "a" + [':'] + "b:c";
  }

  /** A colon that cuts the text into two names in order. */
  predicate SplitsAt(s: string, k: nat) {
    k < |s| && s[k] == ':' && !Before(s[k + 1..], s[..k])
  }

  /** Where the canonical text of a pair is cut. */
  function Cut(a: string, b: string): nat {
    if Before(b, a) then |b| else |a|
  }

  lemma PairSplits(a: string, b: string)
    ensures var (s, k) := (SortedPair(a, b), Cut(a, b)); SplitsAt(s, k) && SamePair(a, b, s[..k], s[k + 1..])
  {
    BeforeTotal(a, b);
    var s := SortedPair(a, b);
    if Before(b, a) {
      assert s[..|b|] == b && s[|b| + 1..] == a;
    } else {
      assert s[..|a|] == a && s[|a| + 1..] == b;
    }
  }

  lemma SplitPairs(s: string, k: nat)
    requires SplitsAt(s, k)
    ensures SortedPair(s[..k], s[k + 1..]) == s && Cut(s[..k], s[k + 1..]) == k
  {
    assert s == s[..k] + [':'] + s[k + 1..];
  }

  lemma SamePairSameCut(a: string, b: string, c: string, d: string)
    requires SamePair(a, b, c, d)
    ensures Cut(a, b) == Cut(c, d)
  {
    BeforeTotal(a, b);
  }

  /** No other pair shares the key of (a, b) exactly when the canonical text has only one
      colon that cuts it into two names in order. */
  lemma KeyUniqueExactly(a: string, b: string)
    ensures (forall c, d :: BridgeKey(c, d) == BridgeKey(a, b) ==> SamePair(a, b, c, d))
            <==> (forall k: nat :: SplitsAt(SortedPair(a, b), k) ==> k == Cut(a, b))
  {
    hide Before, SortedPair, Cut, SplitsAt;
    var s := SortedPair(a, b);
    if forall c, d :: BridgeKey(c, d) == BridgeKey(a, b) ==> SamePair(a, b, c, d) {
      forall k: nat | SplitsAt(s, k)
        ensures k == Cut(a, b)
      {
        SplitFits(s, k);
        SplitPairs(s, k);
        assert BridgeKey(s[..k], s[k + 1..]) == BridgeKey(a, b);
        SamePairSameCut(a, b, s[..k], s[k + 1..]);
      }
    }
    if forall k: nat :: SplitsAt(s, k) ==> k == Cut(a, b) {
      forall c, d | BridgeKey(c, d) == BridgeKey(a, b)
        ensures SamePair(a, b, c, d)
      {
        TailEqual("bridge:", SortedPair(c, d), s);
        PairSplits(a, b);
        PairSplits(c, d);
      }
    }
  }

  lemma SplitFits(s: string, k: nat)
    requires SplitsAt(s, k)
    ensures k < |s|
  {
  }

  // ----- Expansion -----

  predicate ValidDirection(d: string) {
    d == "a_to_b" || d == "b_to_a" || d == "bidirectional"
  }

  datatype Entry = Entry(ifaceIn: string, ifaceOut: string, comment: string)

  /** Forward entries as the dump lists them. */
  function ExpandEntries(r: Rule): seq<Entry> {
    match r.kind
    case InterPeer => [Entry(r.iface, r.iface, "inter-peer forwarding")]
    case Bridge =>
      if r.direction == "a_to_b" then [Entry(r.iface, r.ifaceB, "bridge " + r.iface + " -> " + r.ifaceB)]
      else if r.direction == "b_to_a" then [Entry(r.ifaceB, r.iface, "bridge " + r.ifaceB + " -> " + r.iface)]
      else if r.direction == "bidirectional" then
        [Entry(r.iface, r.ifaceB, "bridge " + r.iface + " <-> " + r.ifaceB),
         Entry(r.ifaceB, r.iface, "bridge " + r.iface + " <-> " + r.ifaceB)]
      else []
    case _ => []
  }

  /** (in, out) accept expressions as the applier installs them. */
  function ForwardExprs(r: Rule): seq<(string, string)> {
    match r.kind
    case InterPeer => [(r.iface, r.iface)]
    case Bridge =>
      if r.direction == "a_to_b" then [(r.iface, r.ifaceB)]
      else if r.direction == "b_to_a" then [(r.ifaceB, r.iface)]
      else if r.direction == "bidirectional" then [(r.iface, r.ifaceB), (r.ifaceB, r.iface)]
      else []
    case _ => []
  }

  /** What a rule is for: traffic entering `i` and leaving `o` is accepted. */
  predicate RuleAccepts(r: Rule, i: string, o: string) {
    match r.kind
    case InterPeer => i == r.iface && o == r.iface
    case Bridge =>
      || ((r.direction == "a_to_b" || r.direction == "bidirectional") && i == r.iface && o == r.ifaceB)
      || ((r.direction == "b_to_a" || r.direction == "bidirectional") && i == r.ifaceB && o == r.iface)
    case _ => false
  }

  /** Dump and installer agree with it, and so with each other. */
  lemma ExpansionsAgree(r: Rule, i: string, o: string)
    ensures RuleAccepts(r, i, o) <==> (i, o) in ForwardExprs(r)
    ensures RuleAccepts(r, i, o) <==> exists e :: e in ExpandEntries(r) && e.ifaceIn == i && e.ifaceOut == o
  {
    var es := ExpandEntries(r);
    assert |es| >= 1 ==> es[0] in es;
    assert |es| >= 2 ==> es[1] in es;
    assert |es| <= 2;
  }
}
