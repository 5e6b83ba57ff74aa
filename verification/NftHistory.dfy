/**
 What the rule manager does, call by call, over whole runs: the in-memory map, the set
 handed to the last successful apply and the set the kernel table was built from.
 */
module NftHistory {
  import opened Wrappers
  import opened Text
  import opened NftRules

  datatype Op =
    | AddNat(iface: string, subnet: string)
    | RemoveNat(iface: string)
    | EnableForward(iface: string)
    | DisableForward(iface: string)
    | AddBridge(a: string, b: string, direction: string)
    | RemoveBridge(a: string, b: string)
    | OpenPort(port: int)
    | ClosePort(port: int)

  /** How an apply call would end: as asked, failing before the old table is deleted, or
      failing at the final flush, when the old table is already gone. */
  datatype Outcome = Fine | Early | Late

  datatype State = State(rules: map<string, Rule>, last: set<Rule>, installed: set<Rule>)

  const Initial := State(map[], {}, {})

  function OpKey(op: Op): string {
    match op
    case AddNat(iface, _) => NatKey(iface)
    case RemoveNat(iface) => NatKey(iface)
    case EnableForward(iface) => ForwardKey(iface)
    case DisableForward(iface) => ForwardKey(iface)
    case AddBridge(a, b, _) => BridgeKey(a, b)
    case RemoveBridge(a, b) => BridgeKey(a, b)
    case OpenPort(port) => UdpKey(port)
    case ClosePort(port) => UdpKey(port)
  }

  /** The rule an add leaves behind; none for a removal. */
  function OpRule(op: Op): Option<Rule> {
    match op
    case AddNat(iface, subnet) => Some(NatRule(iface, subnet))
    case EnableForward(iface) => Some(ForwardRule(iface))
    case AddBridge(a, b, direction) => Some(BridgeRule(a, b, direction))
    case OpenPort(port) => Some(UdpRule(port))
    case _ => None
  }

  predicate Rejected(op: Op) {
    op.AddBridge? && !ValidDirection(op.direction)
  }

  /** The map the call wants to apply; None when it returns without applying anything. */
  function Wanted(rules: map<string, Rule>, op: Op): Option<map<string, Rule>> {
    var key := OpKey(op);
    if Rejected(op) then None
    else
      match OpRule(op)
      case Some(r) => if key in rules && !op.AddBridge? then None else Some(rules[key := r])
      case None => if key in rules then Some(rules - {key}) else None
  }

  predicate ApplySucceeds(rules: map<string, Rule>, outcome: Outcome) {
    outcome.Fine? || (outcome.Late? && rules == map[])
  }

  /** One mutator call: new state and whether it returned without error. */
  function Step(s: State, op: Op, outcome: Outcome): (State, bool) {
    match Wanted(s.rules, op)
    case None => (s, !Rejected(op))
    case Some(rs) =>
      if ApplySucceeds(rs, outcome) then (State(rs, rs.Values, rs.Values), true)
      else (s.(installed := if outcome.Late? then {} else s.installed), false)
  }

  datatype Call = Call(op: Op, outcome: Outcome)

  function Run(calls: seq<Call>): State {
    if calls == [] then Initial
    else Step(Run(calls[..|calls| - 1]), calls[|calls| - 1].op, calls[|calls| - 1].outcome).0
  }

  /** Whether the last call of a run returned without error. */
  predicate Succeeded(calls: seq<Call>)
    requires calls != []
  {
    Step(Run(calls[..|calls| - 1]), calls[|calls| - 1].op, calls[|calls| - 1].outcome).1
  }

  // ----- The map and the last successful apply -----

  ghost predicate WellKeyed(rules: map<string, Rule>) {
    forall k :: k in rules ==> RuleKey(rules[k]) == k
  }

  lemma StepKeeps(s: State, op: Op, outcome: Outcome)
    requires WellKeyed(s.rules) && s.last == s.rules.Values
    ensures WellKeyed(Step(s, op, outcome).0.rules)
    ensures Step(s, op, outcome).0.last == Step(s, op, outcome).0.rules.Values
    ensures !Step(s, op, outcome).1 ==> Step(s, op, outcome).0.rules == s.rules
  {
  }

  /** However the applies end, memory is the set of the last successful apply, every rule
      sits under its own key, and a failing call leaves the map as it was. */
  lemma {:induction false} MemoryIsLastApplied(calls: seq<Call>)
    ensures WellKeyed(Run(calls).rules) && Run(calls).last == Run(calls).rules.Values
    ensures calls != [] && !Succeeded(calls) ==> Run(calls).rules == Run(calls[..|calls| - 1]).rules
  {
    if calls != [] {
      var n := |calls| - 1;
      MemoryIsLastApplied(calls[..n]);
      StepKeeps(Run(calls[..n]), calls[n].op, calls[n].outcome);
    }
  }

  // ----- The kernel table -----

  /** The i-th call handed its rules to the applier, with success. */
  predicate Applied(calls: seq<Call>, i: nat)
    requires i < |calls|
  {
    var w := Wanted(Run(calls[..i]).rules, calls[i].op);
    w.Some? && ApplySucceeds(w.value, calls[i].outcome)
  }

  /** The i-th call lost the table: it wanted rules installed and its final flush failed. */
  predicate FlushFailed(calls: seq<Call>, i: nat)
    requires i < |calls|
  {
    var w := Wanted(Run(calls[..i]).rules, calls[i].op);
    w.Some? && w.value != map[] && calls[i].outcome.Late?
  }

  /** A flush has failed, and no apply has gone through since. */
  predicate Lost(calls: seq<Call>) {
    exists i :: 0 <= i < |calls| && FlushFailed(calls, i) && forall j :: i < j < |calls| ==> !Applied(calls, j)
  }

  lemma LostNext(calls: seq<Call>)
    requires calls != []
    ensures var n := |calls| - 1; Lost(calls) <==> FlushFailed(calls, n) || (Lost(calls[..n]) && !Applied(calls, n))
  {
    hide Run, Wanted, ApplySucceeds;
    var n := |calls| - 1;
    forall i | 0 <= i < n
      ensures FlushFailed(calls[..n], i) == FlushFailed(calls, i) && Applied(calls[..n], i) == Applied(calls, i)
    {
      assert calls[..n][..i] == calls[..i];
    }
    if FlushFailed(calls, n) {
      assert Lost(calls);
    }
    if Lost(calls[..n]) && !Applied(calls, n) {
      var i :| 0 <= i < n && FlushFailed(calls[..n], i) && forall j :: i < j < n ==> !Applied(calls[..n], j);
      assert forall j :: i < j < n ==> !Applied(calls, j);
      assert FlushFailed(calls, i);
    }
    if Lost(calls) {
      var i :| 0 <= i < |calls| && FlushFailed(calls, i) && forall j :: i < j < |calls| ==> !Applied(calls, j);
      if i < n {
        assert FlushFailed(calls[..n], i) && forall j :: i < j < n ==> !Applied(calls[..n], j);
      }
    }
  }

  lemma {:induction false} TableState(calls: seq<Call>)
    ensures Run(calls).installed == if Lost(calls) then {} else Run(calls).rules.Values
  {
    if calls != [] {
      hide Lost, Wanted;
      var n := |calls| - 1;
      TableState(calls[..n]);
      LostNext(calls);
    }
  }

  /** The kernel holds what memory holds exactly when no failed flush has emptied the table
      since the last success, or there is nothing to hold. */
  lemma InSyncExactly(calls: seq<Call>)
    ensures Run(calls).installed == Run(calls).rules.Values <==> (!Lost(calls) || Run(calls).rules == map[])
  {
    TableState(calls);
    var rules := Run(calls).rules;
    if rules != map[] {
      var k :| k in rules;
      assert rules[k] in rules.Values;
    } else {
      assert rules.Values == {};
    }
  }

  /** A failed second call leaves the first rule in memory and nothing in the kernel. */
  lemma FailedFlushDisconnects(port: int, other: int)
    requires port != other
    ensures var calls := [Call(OpenPort(port), Fine), Call(OpenPort(other), Late)];
            Run(calls).rules == map[UdpKey(port) := UdpRule(port)] && Run(calls).installed == {}
  {
    var calls := [Call(OpenPort(port), Fine), Call(OpenPort(other), Late)];
    assert calls[..1] == [Call(OpenPort(port), Fine)] && calls[..1][..0] == [];
    if UdpKey(port) == UdpKey(other) {
      TailEqual("udp:", PrintInt(port), PrintInt(other));
      PrintIntInjective(port, other);
    }
    assert Run(calls[..1]).rules == map[UdpKey(port) := UdpRule(port)];
    assert UdpKey(port) in Wanted(Run(calls[..1]).rules, OpenPort(other)).value;
  }

  // ----- The map as a summary of the history -----

  /** What a call is about, independently of how its key is spelled. */
  datatype Subject = Nat(iface: string) | Forwarding(iface: string) | Pair(a: string, b: string) | Port(port: int)

  function SubjectOf(op: Op): Subject {
    match op
    case AddNat(iface, _) => Nat(iface)
    case RemoveNat(iface) => Nat(iface)
    case EnableForward(iface) => Forwarding(iface)
    case DisableForward(iface) => Forwarding(iface)
    case AddBridge(a, b, _) => Pair(a, b)
    case RemoveBridge(a, b) => Pair(a, b)
    case OpenPort(port) => Port(port)
    case ClosePort(port) => Port(port)
  }

  /** Bridges are about unordered pairs. */
  predicate SameSubject(x: Subject, y: Subject) {
    if x.Pair? && y.Pair? then SamePair(x.a, x.b, y.a, y.b) else x == y
  }

  function SubjectKey(x: Subject): string {
    match x
    case Nat(iface) => NatKey(iface)
    case Forwarding(iface) => ForwardKey(iface)
    case Pair(a, b) => BridgeKey(a, b)
    case Port(port) => UdpKey(port)
  }

  predicate PlainSubject(x: Subject) {
    x.Pair? ==> Plain(x.a) && Plain(x.b)
  }

  lemma KeyIdentifies(x: Subject, y: Subject)
    requires PlainSubject(x) && PlainSubject(y)
    ensures SubjectKey(x) == SubjectKey(y) <==> SameSubject(x, y)
  {
    if x.Pair? && y.Pair? {
      BridgeKeyIdentifies(x.a, x.b, y.a, y.b);
    } else if SubjectKey(x) == SubjectKey(y) {
      assert SubjectKey(x)[0] == SubjectKey(y)[0];
      if x.Nat? { TailEqual("nat:", x.iface, y.iface); }
      if x.Forwarding? { TailEqual("forward:", x.iface, y.iface); }
      if x.Port? {
        TailEqual("udp:", PrintInt(x.port), PrintInt(y.port));
        PrintIntInjective(x.port, y.port);
      }
    }
  }

  /** The rule the history leaves for a subject: set by the last successful add unless a
      successful removal came after it.  Only bridges are replaced by a second add. */
  function Remembered(calls: seq<Call>, x: Subject): Option<Rule> {
    if calls == [] then None
    else
      var n := |calls| - 1;
      var before := Remembered(calls[..n], x);
      var op := calls[n].op;
      if !Succeeded(calls) || !SameSubject(SubjectOf(op), x) then before
      else if OpRule(op).None? then None
      else if op.AddBridge? || before.None? then OpRule(op)
      else before
  }

  function Lookup(rules: map<string, Rule>, key: string): Option<Rule> {
    if key in rules then Some(rules[key]) else None
  }

  lemma StepLookup(s: State, op: Op, outcome: Outcome, x: Subject)
    requires PlainSubject(x) && PlainSubject(SubjectOf(op))
    ensures var (s', ok) := Step(s, op, outcome);
            Lookup(s'.rules, SubjectKey(x)) ==
              if !ok || !SameSubject(SubjectOf(op), x) then Lookup(s.rules, SubjectKey(x))
              else if OpRule(op).None? then None
              else if op.AddBridge? || Lookup(s.rules, SubjectKey(x)).None? then OpRule(op)
              else Lookup(s.rules, SubjectKey(x))
  {
    KeyIdentifies(SubjectOf(op), x);
    assert OpKey(op) == SubjectKey(SubjectOf(op));
  }

  ghost predicate PlainCalls(calls: seq<Call>) {
    forall i :: 0 <= i < |calls| ==> PlainSubject(SubjectOf(calls[i].op))
  }

  /** The map holds exactly what the successful calls, in order, leave for each subject. */
  lemma {:induction false} MapIsHistory(calls: seq<Call>, x: Subject)
    requires PlainCalls(calls) && PlainSubject(x)
    ensures Lookup(Run(calls).rules, SubjectKey(x)) == Remembered(calls, x)
  {
    if calls != [] {
      var n := |calls| - 1;
      MapIsHistory(calls[..n], x);
      StepLookup(Run(calls[..n]), calls[n].op, calls[n].outcome, x);
    }
  }

  // ----- Which traffic is accepted -----

  ghost predicate Accepts(rules: set<Rule>, i: string, o: string) {
    exists r :: r in rules && RuleAccepts(r, i, o)
  }

  /** Index of the last call that went through and is about the given subject. */
  function LastAbout(calls: seq<Call>, about: Op -> bool): (k: Option<nat>)
    ensures k.Some? ==> k.value < |calls| && about(calls[k.value].op)
  {
    if calls == [] then None
    else
      var n := |calls| - 1;
      if Succeeded(calls) && about(calls[n].op) then Some(n) else LastAbout(calls[..n], about)
  }

  function AboutForward(i: string): Op -> bool {
    (op: Op) => (op.EnableForward? || op.DisableForward?) && op.iface == i
  }

  function AboutBridge(i: string, o: string): Op -> bool {
    (op: Op) => (op.AddBridge? || op.RemoveBridge?) && ((op.a == i && op.b == o) || (op.a == o && op.b == i))
  }

  function AboutPort(p: int): Op -> bool {
    (op: Op) => (op.OpenPort? || op.ClosePort?) && op.port == p
  }

  /** What a bridge from a to b is asked to let through. */
  predicate Opens(a: string, b: string, direction: string, i: string, o: string) {
    || (i == a && o == b && direction in {"a_to_b", "bidirectional"})
    || (i == b && o == a && direction in {"b_to_a", "bidirectional"})
  }

  /** Read off the fields of the calls alone: inter-peer forwarding was last enabled, or the
      bridge between the two interfaces was last set in a direction that opens the way. */
  predicate HistoryAccepts(calls: seq<Call>, i: string, o: string) {
    var f, b := LastAbout(calls, AboutForward(i)), LastAbout(calls, AboutBridge(i, o));
    || (i == o && f.Some? && calls[f.value].op.EnableForward?)
    || (b.Some? && var op := calls[b.value].op; op.AddBridge? && Opens(op.a, op.b, op.direction, i, o))
  }

  predicate PortOpen(calls: seq<Call>, p: int) {
    var k := LastAbout(calls, AboutPort(p));
    k.Some? && calls[k.value].op.OpenPort?
  }

  /** The subnet an interface is masqueraded for: that of the first add since the last removal. */
  function NatOf(calls: seq<Call>, iface: string): Option<string> {
    if calls == [] then None
    else
      var n := |calls| - 1;
      var before := NatOf(calls[..n], iface);
      if !Succeeded(calls) then before
      else
        match calls[n].op
        case AddNat(x, subnet) => if x == iface && before.None? then Some(subnet) else before
        case RemoveNat(x) => if x == iface then None else before
        case _ => before
  }

  lemma {:induction false} ForwardRead(calls: seq<Call>, i: string)
    ensures var f := LastAbout(calls, AboutForward(i));
            Remembered(calls, Forwarding(i)).Some? <==> f.Some? && calls[f.value].op.EnableForward?
  {
    hide Succeeded;
    if calls != [] {
      ForwardRead(calls[..|calls| - 1], i);
    }
  }

  lemma {:induction false} BridgeRead(calls: seq<Call>, i: string, o: string)
    ensures var b := LastAbout(calls, AboutBridge(i, o));
            Remembered(calls, Pair(i, o)) ==
              if b.Some? && calls[b.value].op.AddBridge?
              then Some(BridgeRule(calls[b.value].op.a, calls[b.value].op.b, calls[b.value].op.direction)) else None
  {
    hide Succeeded;
    if calls != [] {
      BridgeRead(calls[..|calls| - 1], i, o);
    }
  }

  lemma {:induction false} PortRead(calls: seq<Call>, p: int)
    ensures Remembered(calls, Port(p)) == if PortOpen(calls, p) then Some(UdpRule(p)) else None
  {
    hide Succeeded;
    if calls != [] {
      PortRead(calls[..|calls| - 1], p);
    }
  }

  lemma {:induction false} NatRead(calls: seq<Call>, iface: string)
    ensures Remembered(calls, Nat(iface)) ==
            match NatOf(calls, iface)
            case Some(subnet) => Some(NatRule(iface, subnet))
            case None => None
  {
    hide Succeeded;
    if calls != [] {
      NatRead(calls[..|calls| - 1], iface);
    }
  }

  /** What the map holds for the pair lets through what the calls asked for. */
  lemma HistoryReads(calls: seq<Call>, i: string, o: string)
    ensures HistoryAccepts(calls, i, o) <==>
            || (i == o && Remembered(calls, Forwarding(i)).Some?)
            || (var b := Remembered(calls, Pair(i, o)); b.Some? && RuleAccepts(b.value, i, o))
  {
    hide LastAbout, Remembered;
    ForwardRead(calls, i);
    BridgeRead(calls, i, o);
  }

  /** Every bridge rule in memory was written by an add with plain names. */
  ghost predicate PlainRules(rules: map<string, Rule>) {
    forall k :: k in rules && rules[k].kind.Bridge? ==> Plain(rules[k].iface) && Plain(rules[k].ifaceB)
  }

  lemma {:induction false} RulesArePlain(calls: seq<Call>)
    requires PlainCalls(calls)
    ensures PlainRules(Run(calls).rules)
  {
    if calls != [] {
      var n := |calls| - 1;
      RulesArePlain(calls[..n]);
      assert PlainSubject(SubjectOf(calls[n].op));
    }
  }

  lemma {:induction false} RememberedForward(calls: seq<Call>, i: string)
    ensures Remembered(calls, Forwarding(i)).Some? ==> Remembered(calls, Forwarding(i)).value == ForwardRule(i)
  {
    if calls != [] {
      RememberedForward(calls[..|calls| - 1], i);
    }
  }

  /** Memory accepts (in, out) exactly when the history says so. */
  lemma AcceptedIsHistory(calls: seq<Call>, i: string, o: string)
    requires PlainCalls(calls) && Plain(i) && Plain(o)
    ensures Accepts(Run(calls).rules.Values, i, o) <==> HistoryAccepts(calls, i, o)
  {
    hide HistoryAccepts, Remembered, Run;
    var rules := Run(calls).rules;
    HistoryReads(calls, i, o);
    MemoryIsLastApplied(calls);
    RulesArePlain(calls);
    MapIsHistory(calls, Forwarding(i));
    MapIsHistory(calls, Pair(i, o));
    RememberedForward(calls, i);
    if Accepts(rules.Values, i, o) {
      var r :| r in rules.Values && RuleAccepts(r, i, o);
      var k :| k in rules && rules[k] == r;
      if r.kind.Bridge? {
        BridgeKeyIdentifies(r.iface, r.ifaceB, i, o);
      }
      assert k == (if r.kind.Bridge? then BridgeKey(i, o) else ForwardKey(i));
    }
    if HistoryAccepts(calls, i, o) {
      var k := if i == o && Remembered(calls, Forwarding(i)).Some? then ForwardKey(i) else BridgeKey(i, o);
      assert k in rules && RuleAccepts(rules[k], i, o);
      assert rules[k] in rules.Values;
    }
  }

  /** After a bridge call that went through, just the directions it names are open. */
  lemma LastBridgeOpens(calls: seq<Call>, a: string, b: string, direction: string)
    requires calls != [] && Succeeded(calls) && calls[|calls| - 1].op == AddBridge(a, b, direction)
    requires PlainCalls(calls) && a != b
    ensures Accepts(Run(calls).rules.Values, a, b) <==> direction == "a_to_b" || direction == "bidirectional"
    ensures Accepts(Run(calls).rules.Values, b, a) <==> direction == "b_to_a" || direction == "bidirectional"
  {
    hide Run, Succeeded, Accepts;
    assert PlainSubject(SubjectOf(calls[|calls| - 1].op));
    AcceptedIsHistory(calls, a, b);
    AcceptedIsHistory(calls, b, a);
  }

  /** A port is open in memory exactly when it was last opened. */
  lemma PortIsHistory(calls: seq<Call>, p: int)
    requires PlainCalls(calls)
    ensures (exists r :: r in Run(calls).rules.Values && r.kind.UdpInput? && r.port == p) <==> PortOpen(calls, p)
  {
    hide Run, Remembered, PortOpen, UdpKey;
    var rules := Run(calls).rules;
    MemoryIsLastApplied(calls);
    MapIsHistory(calls, Port(p));
    PortRead(calls, p);
    if r :| r in rules.Values && r.kind.UdpInput? && r.port == p {
      var k :| k in rules && rules[k] == r;
      assert k == UdpKey(p);
    }
    if PortOpen(calls, p) {
      assert rules[UdpKey(p)] in rules.Values;
    }
  }

  /** An interface is masqueraded in memory, for a subnet, exactly as it was last asked. */
  lemma NatIsHistory(calls: seq<Call>, iface: string, subnet: string)
    requires PlainCalls(calls)
    ensures (exists r ::
               r in Run(calls).rules.Values && r.kind.NatMasquerade? && r.iface == iface && r.subnet == subnet)
            <==> NatOf(calls, iface) == Some(subnet)
  {
    hide Run, Remembered, NatOf, NatKey;
    var rules := Run(calls).rules;
    MemoryIsLastApplied(calls);
    MapIsHistory(calls, Nat(iface));
    NatRead(calls, iface);
    if r :| r in rules.Values && r.kind.NatMasquerade? && r.iface == iface && r.subnet == subnet {
      var k :| k in rules && rules[k] == r;
      assert k == NatKey(iface);
    }
    if NatOf(calls, iface) == Some(subnet) {
      assert rules[NatKey(iface)] in rules.Values;
    }
  }
}
