/** The rule manager and the applier that fills the kernel table. */
module NftManager {
  import opened Wrappers
  import opened Collections
  import opened NftRules
  import opened NftHistory

  // ----- The kernel table -----

  datatype Table = Table(inputs: seq<int>, nats: seq<string>, forwards: seq<(string, string)>)

  /** The table was built from exactly these rules, in some order. */
  ghost predicate BuiltFrom(t: Option<Table>, rules: set<Rule>) {
    match t
    case None => rules == {}
    case Some(t) =>
      && (forall i, o :: (i, o) in t.forwards <==> Accepts(rules, i, o))
      && (forall p :: p in t.inputs <==> exists r :: r in rules && r.kind.UdpInput? && r.port % 0x1_0000 == p)
      && (forall n :: n in t.nats <==> exists r :: r in rules && r.kind.NatMasquerade? && r.iface == n)
  }

  /** Some rule of the table's forward chain accepts the pair. */
  predicate TableAccepts(t: Option<Table>, i: string, o: string) {
    t.Some? && (i, o) in t.value.forwards
  }

  method Partition(rules: seq<Rule>) returns (nats: seq<Rule>, forwards: seq<Rule>, inputs: seq<Rule>)
    ensures forall r :: r in nats <==> r in rules && r.kind.NatMasquerade?
    ensures forall r :: r in forwards <==> r in rules && (r.kind.InterPeer? || r.kind.Bridge?)
    ensures forall r :: r in inputs <==> r in rules && r.kind.UdpInput?
  {
    nats, forwards, inputs := [], [], [];
    for i := 0 to |rules|
      invariant forall r :: r in nats <==> r in rules[..i] && r.kind.NatMasquerade?
      invariant forall r :: r in forwards <==> r in rules[..i] && (r.kind.InterPeer? || r.kind.Bridge?)
      invariant forall r :: r in inputs <==> r in rules[..i] && r.kind.UdpInput?
    {
      assert rules[..i + 1] == rules[..i] + [rules[i]];
      match rules[i].kind
      case NatMasquerade => nats := nats + [rules[i]];
      case InterPeer => forwards := forwards + [rules[i]];
      case Bridge => forwards := forwards + [rules[i]];
      case UdpInput => inputs := inputs + [rules[i]];
    }
    assert rules[..|rules|] == rules;
  }

  method ForwardChain(rules: seq<Rule>) returns (pairs: seq<(string, string)>)
    ensures forall i, o :: (i, o) in pairs <==> Accepts(Elems(rules), i, o)
  {
    pairs := [];
    for k := 0 to |rules|
      invariant forall i, o :: (i, o) in pairs <==> exists j :: 0 <= j < k && RuleAccepts(rules[j], i, o)
    {
      var exprs := ForwardExprs(rules[k]);
      forall i, o
        ensures (i, o) in exprs <==> RuleAccepts(rules[k], i, o)
      {
        ExpansionsAgree(rules[k], i, o);
      }
      pairs := pairs + exprs;
    }
    forall i, o
      ensures (i, o) in pairs <==> Accepts(Elems(rules), i, o)
    {
      if Accepts(Elems(rules), i, o) {
        var r :| r in Elems(rules) && RuleAccepts(r, i, o);
        var j :| 0 <= j < |rules| && rules[j] == r;
      }
      if (i, o) in pairs {
        var j :| 0 <= j < |rules| && RuleAccepts(rules[j], i, o);
        assert rules[j] in Elems(rules);
      }
    }
  }

  method InputChain(rules: seq<Rule>) returns (ports: seq<int>)
    ensures forall p :: p in ports <==> exists r :: r in rules && r.port % 0x1_0000 == p
  {
    ports := [];
    for i := 0 to |rules|
      invariant forall p :: p in ports <==> exists r :: r in rules[..i] && r.port % 0x1_0000 == p
    {
      assert rules[..i + 1] == rules[..i] + [rules[i]];
      assert rules[i] in rules[..i + 1];
      assert forall r :: r in rules[..i + 1] <==> r in rules[..i] || r == rules[i];
      ports := ports + [rules[i].port % 0x1_0000];
    }
    assert rules[..|rules|] == rules;
  }

  method NatChain(rules: seq<Rule>) returns (names: seq<string>)
    ensures forall n :: n in names <==> exists r :: r in rules && r.iface == n
  {
    names := [];
    for i := 0 to |rules|
      invariant forall n :: n in names <==> exists r :: r in rules[..i] && r.iface == n
    {
      assert rules[..i + 1] == rules[..i] + [rules[i]];
      assert rules[i] in rules[..i + 1];
      assert forall r :: r in rules[..i + 1] <==> r in rules[..i] || r == rules[i];
      names := names + [rules[i].iface];
    }
    assert rules[..|rules|] == rules;
  }

  /** The fresh table: rules separated by chain, each expanded in turn. */
  method BuildTable(rules: seq<Rule>) returns (t: Option<Table>)
    ensures BuiltFrom(t, Elems(rules))
  {
    if rules == [] {
      return None;
    }
    var nats, forwards, inputs := Partition(rules);
    var pairs := ForwardChain(forwards);
    var ports := InputChain(inputs);
    var names := NatChain(nats);
    forall i, o
      ensures Accepts(Elems(forwards), i, o) <==> Accepts(Elems(rules), i, o)
    {
      if Accepts(Elems(rules), i, o) {
        var r :| r in Elems(rules) && RuleAccepts(r, i, o);
        assert r in Elems(forwards);
      }
    }
    return Some(Table(ports, names, pairs));
  }

  class Applier {
    var table: Option<Table>
    var last: seq<Rule>          // argument of the last apply that succeeded
    ghost var installed: set<Rule>
    const outcome: nat -> Outcome
    var tick: nat

    constructor (outcome: nat -> Outcome)
      ensures this.outcome == outcome && tick == 0 && last == [] && installed == {} && table == None
    {
      this.outcome, this.tick, this.last, this.installed, this.table := outcome, 0, [], {}, None;
    }

    ghost predicate Valid()
      reads this
    {
      BuiltFrom(table, installed)
    }

    /** Deletes the old table, then creates the new one; a failure between the two leaves
        no table at all. */
    method Apply(rules: seq<Rule>) returns (ok: bool)
      requires Valid()
      modifies this
      ensures Valid() && tick == old(tick) + 1
      ensures ok <==> outcome(old(tick)).Fine? || (outcome(old(tick)).Late? && rules == [])
      ensures ok ==> last == rules && installed == Elems(rules)
      ensures !ok ==> last == old(last)
      ensures !ok ==> installed == if outcome(old(tick)).Late? then {} else old(installed)
    {
      var o := outcome(tick);
      tick := tick + 1;
      if o.Early? {
        return false;
      }
      table, installed := None, {};
      if rules != [] && o.Late? {
        return false;
      }
      var t := BuildTable(rules);
      table, installed, last := t, Elems(rules), rules;
      return true;
    }
  }

  class Manager {
    var rules: map<string, Rule>
    const applier: Applier

    constructor (applier: Applier)
      ensures this.applier == applier && rules == map[]
    {
      this.applier, this.rules := applier, map[];
    }

    ghost function View(): State
      reads this, applier
    {
      State(rules, Elems(applier.last), applier.installed)
    }

    /** How the next apply will end. */
    ghost function Next(): Outcome
      reads applier
    {
      applier.outcome(applier.tick)
    }

    /** Hands the whole map to the applier, in whatever order the map is walked. */
    method Push() returns (ok: bool)
      requires applier.Valid()
      modifies applier
      ensures applier.Valid() && ok == ApplySucceeds(rules, old(Next()))
      ensures View() == if ok then State(rules, rules.Values, rules.Values)
                        else old(View()).(installed := if old(Next()).Late? then {} else old(applier.installed))
    {
      var list := Enumerate(rules.Values);
      assert rules.Values == {} <==> rules == map[] by {
        if k :| k in rules {
          assert rules[k] in rules.Values;
        }
      }
      assert list == [] <==> rules == map[] by {
        assert list != [] ==> list[0] in Elems(list);
      }
      ok := applier.Apply(list);
    }

    /** Adds a rule under its key and applies; an add that finds its key does nothing. */
    method AddRule(rule: Rule, ghost op: Op) returns (ok: bool)
      requires applier.Valid() && OpRule(op) == Some(rule) && RuleKey(rule) == OpKey(op) && !op.AddBridge?
      modifies this, applier
      ensures applier.Valid() && (View(), ok) == Step(old(View()), op, old(Next()))
    {
      var key := RuleKey(rule);
      if key in rules {
        return true;
      }
      ghost var was := rules;
      rules := rules[key := rule];
      ok := Push();
      if !ok {
        rules := rules - {key};
        assert rules == was;
      }
    }

    /** Removes the rule under a key and applies; puts it back when that fails. */
    method RemoveRule(key: string, ghost op: Op) returns (ok: bool)
      requires applier.Valid() && OpRule(op).None? && key == OpKey(op)
      modifies this, applier
      ensures applier.Valid() && (View(), ok) == Step(old(View()), op, old(Next()))
    {
      if key !in rules {
        return true;
      }
      ghost var was := rules;
      var rule := rules[key];
      rules := rules - {key};
      ok := Push();
      if !ok {
        rules := rules[key := rule];
        assert rules == was;
      }
    }

    method AddNATMasquerade(iface: string, subnet: string) returns (ok: bool)
      requires applier.Valid()
      modifies this, applier
      ensures applier.Valid() && (View(), ok) == Step(old(View()), AddNat(iface, subnet), old(Next()))
    {
      ok := AddRule(NatRule(iface, subnet), AddNat(iface, subnet));
    }

    method RemoveNATMasquerade(iface: string) returns (ok: bool)
      requires applier.Valid()
      modifies this, applier
      ensures applier.Valid() && (View(), ok) == Step(old(View()), RemoveNat(iface), old(Next()))
    {
      ok := RemoveRule("nat:" + iface, RemoveNat(iface));
    }

    method EnableInterPeerForwarding(iface: string) returns (ok: bool)
      requires applier.Valid()
      modifies this, applier
      ensures applier.Valid() && (View(), ok) == Step(old(View()), EnableForward(iface), old(Next()))
    {
      ok := AddRule(ForwardRule(iface), EnableForward(iface));
    }

    method DisableInterPeerForwarding(iface: string) returns (ok: bool)
      requires applier.Valid()
      modifies this, applier
      ensures applier.Valid() && (View(), ok) == Step(old(View()), DisableForward(iface), old(Next()))
    {
      ok := RemoveRule("forward:" + iface, DisableForward(iface));
    }

    /** A bridge between the same two interfaces is replaced, and restored on failure. */
    method AddNetworkBridge(a: string, b: string, direction: string) returns (ok: bool)
      requires applier.Valid()
      modifies this, applier
      ensures applier.Valid() && (View(), ok) == Step(old(View()), AddBridge(a, b, direction), old(Next()))
      ensures direction in {"a_to_b", "b_to_a", "bidirectional"} ==> (ok <==> old(Next()).Fine?)
      ensures direction !in {"a_to_b", "b_to_a", "bidirectional"} ==> !ok && View() == old(View())
    {
      if !(direction == "a_to_b" || direction == "b_to_a" || direction == "bidirectional") {
        return false;
      }
      var rule := BridgeRule(a, b, direction);
      var key := RuleKey(rule);
      ghost var was := rules;
      var saved := Lookup(rules, key);
      rules := rules[key := rule];
      assert key in rules;
      ok := Push();
      if !ok {
        rules := if saved.Some? then rules[key := saved.value] else rules - {key};
        assert rules == was;
      }
    }

    method RemoveNetworkBridge(a: string, b: string) returns (ok: bool)
      requires applier.Valid()
      modifies this, applier
      ensures applier.Valid() && (View(), ok) == Step(old(View()), RemoveBridge(a, b), old(Next()))
    {
      ok := RemoveRule(BridgeKey(a, b), RemoveBridge(a, b));
    }

    method OpenUDPPort(port: int) returns (ok: bool)
      requires applier.Valid()
      modifies this, applier
      ensures applier.Valid() && (View(), ok) == Step(old(View()), OpenPort(port), old(Next()))
    {
      ok := AddRule(UdpRule(port), OpenPort(port));
    }

    method CloseUDPPort(port: int) returns (ok: bool)
      requires applier.Valid()
      modifies this, applier
      ensures applier.Valid() && (View(), ok) == Step(old(View()), ClosePort(port), old(Next()))
    {
      ok := RemoveRule(UdpKey(port), ClosePort(port));
    }
  }
}
