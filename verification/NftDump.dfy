/** The rule dump: selection and ordering of what it lists, before it is worded. */
module NftDump {
  import opened Wrappers
  import opened Collections
  import opened NftRules
  import opened NftHistory
  import opened NftManager

  datatype Dump = Dump(inputs: seq<int>, nats: seq<(string, string)>, forwards: seq<Entry>)

  // ----- Sorting -----

  ghost predicate Ordering<T(!new)>(leq: (T, T) -> bool) {
    && (forall x, y :: leq(x, y) || leq(y, x))
    && (forall x, y, z :: leq(x, y) && leq(y, z) ==> leq(x, z))
  }

  ghost predicate Sorted<T>(s: seq<T>, leq: (T, T) -> bool) {
    forall i, j :: 0 <= i < j < |s| ==> leq(s[i], s[j])
  }

  method Insert<T(!new)>(s: seq<T>, x: T, leq: (T, T) -> bool) returns (r: seq<T>)
    requires Ordering(leq) && Sorted(s, leq)
    ensures Sorted(r, leq) && multiset(r) == multiset(s) + multiset{x}
  {
    var k := |s|;
    while k > 0 && !leq(s[k - 1], x)
      invariant 0 <= k <= |s|
      invariant forall i :: k <= i < |s| ==> leq(x, s[i])
    {
      k := k - 1;
    }
    Inserted(s, x, k, leq);
    r := s[..k] + [x] + s[k..];
  }

  lemma Inserted<T(!new)>(s: seq<T>, x: T, k: nat, leq: (T, T) -> bool)
    requires Ordering(leq) && Sorted(s, leq) && k <= |s| && (k > 0 ==> leq(s[k - 1], x))
    requires forall i :: k <= i < |s| ==> leq(x, s[i])
    ensures Sorted(s[..k] + [x] + s[k..], leq) && multiset(s[..k] + [x] + s[k..]) == multiset(s) + multiset{x}
  {
    hide Ordering, Sorted;
    SortedParts(s, x, k, leq);
    OneMore(s, x, k);
  }

  lemma OneMore<T>(s: seq<T>, x: T, k: nat)
    requires k <= |s|
    ensures multiset(s[..k] + [x] + s[k..]) == multiset(s) + multiset{x}
  {
    assert s == s[..k] + s[k..];
  }

  lemma SortedParts<T(!new)>(s: seq<T>, x: T, k: nat, leq: (T, T) -> bool)
    requires Ordering(leq) && Sorted(s, leq) && k <= |s| && (k > 0 ==> leq(s[k - 1], x))
    requires forall i :: k <= i < |s| ==> leq(x, s[i])
    ensures Sorted(s[..k] + [x] + s[k..], leq)
  {
    var r := s[..k] + [x] + s[k..];
    assert forall i :: 0 <= i < k - 1 ==> leq(s[i], s[k - 1]);
    forall i, j | 0 <= i < j < |r|
      ensures leq(r[i], r[j])
    {
      assert r[i] == if i < k then s[i] else if i == k then x else s[i - 1];
      assert r[j] == if j < k then s[j] else if j == k then x else s[j - 1];
    }
  }

  /** Stands for the library sorts: some sorted rearrangement. */
  method SortBy<T(!new)>(s: seq<T>, leq: (T, T) -> bool) returns (r: seq<T>)
    requires Ordering(leq)
    ensures Sorted(r, leq) && multiset(r) == multiset(s)
  {
    r := [];
    for i := 0 to |s|
      invariant Sorted(r, leq) && multiset(r) == multiset(s[..i])
    {
      assert s[..i + 1] == s[..i] + [s[i]];
      r := Insert(r, s[i], leq);
    }
    assert s[..|s|] == s;
  }

  predicate AtMost(a: string, b: string) {
    a == b || Before(a, b)
  }

  lemma AtMostOrdering()
    ensures Ordering(AtMost)
  {
    forall x, y
      ensures AtMost(x, y) || AtMost(y, x)
    {
      BeforeTotal(x, y);
    }
    forall x, y, z | AtMost(x, y) && AtMost(y, z)
      ensures AtMost(x, z)
    {
      if Before(x, y) && Before(y, z) {
        BeforeTransitive(x, y, z);
      }
    }
  }

  predicate EntryAtMost(a: Entry, b: Entry) {
    if a.ifaceIn != b.ifaceIn then AtMost(a.ifaceIn, b.ifaceIn) else AtMost(a.ifaceOut, b.ifaceOut)
  }

  lemma EntryTransitive(x: Entry, y: Entry, z: Entry)
    requires Ordering(AtMost) && EntryAtMost(x, y) && EntryAtMost(y, z)
    ensures EntryAtMost(x, z)
  {
    BeforeTotal(x.ifaceIn, y.ifaceIn);
    assert AtMost(x.ifaceIn, y.ifaceIn) && AtMost(y.ifaceIn, z.ifaceIn);
    if x.ifaceIn == z.ifaceIn {
      assert x.ifaceIn == y.ifaceIn;
      assert AtMost(x.ifaceOut, y.ifaceOut) && AtMost(y.ifaceOut, z.ifaceOut);
    }
  }

  lemma EntryOrdering()
    ensures Ordering(EntryAtMost)
  {
    AtMostOrdering();
    forall x, y, z | EntryAtMost(x, y) && EntryAtMost(y, z)
      ensures EntryAtMost(x, z)
    {
      EntryTransitive(x, y, z);
    }
    forall x, y
      ensures EntryAtMost(x, y) || EntryAtMost(y, x)
    {
      assert AtMost(x.ifaceIn, y.ifaceIn) || AtMost(y.ifaceIn, x.ifaceIn);
      assert AtMost(x.ifaceOut, y.ifaceOut) || AtMost(y.ifaceOut, x.ifaceOut);
    }
  }

  // ----- What is listed -----

  function Inputs(rules: map<string, Rule>, keys: seq<string>): seq<int>
    requires forall k :: k in keys ==> k in rules
  {
    if keys == [] then []
    else
      var r := rules[keys[|keys| - 1]];
      Inputs(rules, keys[..|keys| - 1]) + (if r.kind.UdpInput? then [r.port] else [])
  }

  function Nats(rules: map<string, Rule>, keys: seq<string>): seq<(string, string)>
    requires forall k :: k in keys ==> k in rules
  {
    if keys == [] then []
    else
      var r := rules[keys[|keys| - 1]];
      Nats(rules, keys[..|keys| - 1]) + (if r.kind.NatMasquerade? then [(r.iface, r.subnet)] else [])
  }

  function Forwards(rules: map<string, Rule>, keys: seq<string>): seq<Entry>
    requires forall k :: k in keys ==> k in rules
  {
    if keys == [] then []
    else Forwards(rules, keys[..|keys| - 1]) + ExpandEntries(rules[keys[|keys| - 1]])
  }

  ghost predicate Lists(es: seq<Entry>, i: string, o: string) {
    exists e :: e in es && e.ifaceIn == i && e.ifaceOut == o
  }

  lemma ListsConcat(a: seq<Entry>, b: seq<Entry>, i: string, o: string)
    ensures Lists(a + b, i, o) <==> Lists(a, i, o) || Lists(b, i, o)
  {
    assert forall e :: e in a + b <==> e in a || e in b;
  }

  ghost predicate SomeAccepts(rules: map<string, Rule>, keys: seq<string>, i: string, o: string) {
    exists k :: k in keys && k in rules && RuleAccepts(rules[k], i, o)
  }

  lemma {:induction false} ForwardsAt(rules: map<string, Rule>, keys: seq<string>, i: string, o: string)
    requires forall k :: k in keys ==> k in rules
    ensures Lists(Forwards(rules, keys), i, o) <==> SomeAccepts(rules, keys, i, o)
  {
    hide RuleAccepts, ExpandEntries;
    if keys != [] {
      var n := |keys| - 1;
      ForwardsAt(rules, keys[..n], i, o);
      ExpansionsAgree(rules[keys[n]], i, o);
      ListsConcat(Forwards(rules, keys[..n]), ExpandEntries(rules[keys[n]]), i, o);
      assert keys == keys[..n] + [keys[n]];
      assert forall k :: k in keys <==> k in keys[..n] || k == keys[n];
    }
  }

  ghost predicate SortedKeys(keys: seq<string>, rules: map<string, Rule>) {
    NoRepeats(keys) && Elems(keys) == rules.Keys && Sorted(keys, AtMost)
  }

  /** There is only one way to list the keys in order, so the dump depends on the map alone
      and not on how it is walked. */
  lemma {:induction false} SortedKeysUnique(s: seq<string>, t: seq<string>)
    requires NoRepeats(s) && NoRepeats(t) && Sorted(s, AtMost) && Sorted(t, AtMost) && Elems(s) == Elems(t)
    ensures s == t
  {
    CountElems(s);
    CountElems(t);
    if s != [] {
      var n := |s| - 1;
      LastIsGreatest(s, t);
      LastIsGreatest(t, s);
      BeforeTotal(s[n], t[n]);
      DropLast(s);
      DropLast(t);
      SortedKeysUnique(s[..n], t[..n]);
    }
  }

  lemma DropLast(s: seq<string>)
    requires s != [] && NoRepeats(s)
    ensures s == s[..|s| - 1] + [s[|s| - 1]] && Elems(s[..|s| - 1]) == Elems(s) - {s[|s| - 1]}
  {
  }

  lemma LastIsGreatest(s: seq<string>, t: seq<string>)
    requires s != [] && t != [] && Sorted(s, AtMost) && Elems(s) == Elems(t)
    ensures AtMost(t[|t| - 1], s[|s| - 1])
  {
    assert t[|t| - 1] in Elems(s);
    var i :| 0 <= i < |s| && s[i] == t[|t| - 1];
  }

  /** Collects by sorted key, then sorts the forward entries. */
  lemma KeysAscend(keys: seq<string>)
    requires NoRepeats(keys) && Sorted(keys, AtMost)
    ensures forall i, j :: 0 <= i < j < |keys| ==> Before(keys[i], keys[j])
  {
    forall i, j | 0 <= i < j < |keys|
      ensures Before(keys[i], keys[j])
    {
      assert AtMost(keys[i], keys[j]);
    }
  }

  /** By the interface traffic comes in on, then by the one it leaves on. */
  predicate Ascend(a: Entry, b: Entry) {
    || Before(a.ifaceIn, b.ifaceIn)
    || (a.ifaceIn == b.ifaceIn && (a.ifaceOut == b.ifaceOut || Before(a.ifaceOut, b.ifaceOut)))
  }

  lemma EntriesAscend(es: seq<Entry>)
    requires Sorted(es, EntryAtMost)
    ensures forall i, j :: 0 <= i < j < |es| ==> Ascend(es[i], es[j])
  {
    forall i, j | 0 <= i < j < |es|
      ensures Ascend(es[i], es[j])
    {
      assert EntryAtMost(es[i], es[j]);
    }
  }

  method SelectRules(rules: map<string, Rule>) returns (d: Dump, ghost keys: seq<string>)
    ensures SortedKeys(keys, rules) && forall i, j :: 0 <= i < j < |keys| ==> Before(keys[i], keys[j])
    ensures forall i, j :: 0 <= i < j < |d.forwards| ==> Ascend(d.forwards[i], d.forwards[j])
    ensures forall k :: k in keys ==> k in rules
    ensures d.inputs == Inputs(rules, keys) && d.nats == Nats(rules, keys)
    ensures multiset(d.forwards) == multiset(Forwards(rules, keys)) && Sorted(d.forwards, EntryAtMost)
    ensures forall i, o :: Lists(d.forwards, i, o) <==> Accepts(rules.Values, i, o)
  {
    var ks := CollectKeys(rules);
    var inputs: seq<int>, nats: seq<(string, string)>, entries: seq<Entry> := [], [], [];
    for i := 0 to |ks|
      invariant inputs == Inputs(rules, ks[..i]) && nats == Nats(rules, ks[..i]) && entries == Forwards(rules, ks[..i])
    {
      NextKey(rules, ks, i);
      var r := rules[ks[i]];
      match r.kind
      case NatMasquerade => nats := nats + [(r.iface, r.subnet)];
      case UdpInput => inputs := inputs + [r.port];
      case InterPeer => entries := entries + ExpandEntries(r);
      case Bridge => entries := entries + ExpandEntries(r);
    }
    assert ks[..|ks|] == ks;
    EntryOrdering();
    var sorted := SortBy(entries, EntryAtMost);
    DumpAccepts(rules, ks, sorted);
    KeysAscend(ks);
    EntriesAscend(sorted);
    d, keys := Dump(inputs, nats, sorted), ks;
  }

  lemma NextKey(rules: map<string, Rule>, ks: seq<string>, i: nat)
    requires i < |ks| && forall k :: k in ks ==> k in rules
    ensures Inputs(rules, ks[..i + 1]) == Inputs(rules, ks[..i])
              + (if rules[ks[i]].kind.UdpInput? then [rules[ks[i]].port] else [])
    ensures Nats(rules, ks[..i + 1]) == Nats(rules, ks[..i])
              + (if rules[ks[i]].kind.NatMasquerade? then [(rules[ks[i]].iface, rules[ks[i]].subnet)] else [])
    ensures Forwards(rules, ks[..i + 1]) == Forwards(rules, ks[..i]) + ExpandEntries(rules[ks[i]])
  {
    assert ks[..i + 1][..i] == ks[..i];
  }

  method CollectKeys(rules: map<string, Rule>) returns (ks: seq<string>)
    ensures SortedKeys(ks, rules) && forall k :: k in ks ==> k in rules
  {
    var walked := Enumerate(rules.Keys);
    AtMostOrdering();
    ks := SortBy(walked, AtMost);
    Rearranged(walked, ks);
    assert forall k :: k in ks ==> k in Elems(ks);
  }

  lemma Rearranged(s: seq<string>, t: seq<string>)
    requires multiset(s) == multiset(t) && NoRepeats(s)
    ensures NoRepeats(t) && Elems(t) == Elems(s)
  {
    assert forall x :: x in s <==> x in multiset(s);
    assert forall x :: x in t <==> x in multiset(t);
    assert |s| == |multiset(s)| && |t| == |multiset(t)|;
    assert Elems(t) == Elems(s);
    CountElems(s);
    CountElems(t);
  }

  /** What the dump lists is what memory accepts. */
  lemma DumpAccepts(rules: map<string, Rule>, keys: seq<string>, listed: seq<Entry>)
    requires SortedKeys(keys, rules) && (forall k :: k in keys ==> k in rules)
    requires multiset(listed) == multiset(Forwards(rules, keys))
    ensures forall i, o :: Lists(listed, i, o) <==> Accepts(rules.Values, i, o)
  {
    var all := Forwards(rules, keys);
    assert forall e :: e in listed <==> e in multiset(listed);
    assert forall e :: e in all <==> e in multiset(all);
    forall i, o
      ensures Lists(listed, i, o) <==> Accepts(rules.Values, i, o)
    {
      ForwardsAt(rules, keys, i, o);
      if Accepts(rules.Values, i, o) {
        var r :| r in rules.Values && RuleAccepts(r, i, o);
        var k :| k in rules && rules[k] == r;
        assert k in Elems(keys);
      }
      if SomeAccepts(rules, keys, i, o) {
        var k :| k in keys && k in rules && RuleAccepts(rules[k], i, o);
        assert rules[k] in rules.Values;
      }
    }
  }

  // ----- Installed, dumped and intended -----

  /** After any run the dump lists the pairs the history calls for, and the kernel table
      accepts just those, unless a failed flush has lost it; then it accepts none. */
  lemma InstalledIsDumpedIsIntended(calls: seq<Call>, t: Option<Table>, listed: seq<Entry>, keys: seq<string>,
                                    i: string, o: string)
    requires PlainCalls(calls) && Plain(i) && Plain(o) && BuiltFrom(t, Run(calls).installed)
    requires SortedKeys(keys, Run(calls).rules) && (forall k :: k in keys ==> k in Run(calls).rules)
    requires multiset(listed) == multiset(Forwards(Run(calls).rules, keys))
    ensures Lists(listed, i, o) <==> HistoryAccepts(calls, i, o)
    ensures TableAccepts(t, i, o) <==> !Lost(calls) && HistoryAccepts(calls, i, o)
  {
    hide Run, Lost, Lists, HistoryAccepts, RuleAccepts;
    TableState(calls);
    DumpAccepts(Run(calls).rules, keys, listed);
    AcceptedIsHistory(calls, i, o);
  }

  /** Likewise for ports and masquerades: the table has those the calls last asked for, and a
      lost table has none. */
  lemma TableIsIntended(calls: seq<Call>, t: Option<Table>, p: int, iface: string)
    requires PlainCalls(calls) && BuiltFrom(t, Run(calls).installed)
    ensures (t.Some? && p in t.value.inputs) <==>
            !Lost(calls) && exists q :: PortOpen(calls, q) && q % 0x1_0000 == p
    ensures (t.Some? && iface in t.value.nats) <==> !Lost(calls) && NatOf(calls, iface).Some?
  {
    hide Run, Lost, PortOpen, NatOf, Accepts;
    TableState(calls);
    var rules := Run(calls).rules.Values;
    forall q
      ensures (exists r :: r in rules && r.kind.UdpInput? && r.port == q) <==> PortOpen(calls, q)
    {
      PortIsHistory(calls, q);
    }
    forall subnet
      ensures (exists r :: r in rules && r.kind.NatMasquerade? && r.iface == iface && r.subnet == subnet)
              <==> NatOf(calls, iface) == Some(subnet)
    {
      NatIsHistory(calls, iface, subnet);
    }
    if exists r :: r in rules && r.kind.UdpInput? && r.port % 0x1_0000 == p {
      var r :| r in rules && r.kind.UdpInput? && r.port % 0x1_0000 == p;
      assert PortOpen(calls, r.port);
    }
    if r :| r in rules && r.kind.NatMasquerade? && r.iface == iface {
      assert NatOf(calls, iface) == Some(r.subnet);
    }
  }

  // ----- Ports and masquerades listed -----

  lemma {:induction false} InputsAt(rules: map<string, Rule>, keys: seq<string>, p: int)
    requires forall k :: k in keys ==> k in rules
    ensures p in Inputs(rules, keys) <==> exists k :: k in keys && rules[k].kind.UdpInput? && rules[k].port == p
  {
    if keys != [] {
      var n := |keys| - 1;
      InputsAt(rules, keys[..n], p);
      KeysSnoc(keys);
      if p in Inputs(rules, keys[..n]) {
        var k :| k in keys[..n] && rules[k].kind.UdpInput? && rules[k].port == p;
        assert k in keys;
      }
    }
  }

  lemma {:induction false} NatsAt(rules: map<string, Rule>, keys: seq<string>, x: (string, string))
    requires forall k :: k in keys ==> k in rules
    ensures x in Nats(rules, keys) <==>
            exists k :: k in keys && rules[k].kind.NatMasquerade? && rules[k].iface == x.0 && rules[k].subnet == x.1
  {
    if keys != [] {
      var n := |keys| - 1;
      NatsAt(rules, keys[..n], x);
      KeysSnoc(keys);
      if x in Nats(rules, keys[..n]) {
        var k :| k in keys[..n] && rules[k].kind.NatMasquerade? && rules[k].iface == x.0 && rules[k].subnet == x.1;
        assert k in keys;
      }
    }
  }

  lemma KeysSnoc(keys: seq<string>)
    requires keys != []
    ensures forall k :: k in keys <==> k in keys[..|keys| - 1] || k == keys[|keys| - 1]
  {
    assert keys == keys[..|keys| - 1] + [keys[|keys| - 1]];
  }

  lemma {:induction false} ForwardListed(rules: map<string, Rule>, keys: seq<string>, k: string, e: Entry)
    requires (forall k :: k in keys ==> k in rules) && k in keys && e in ExpandEntries(rules[k])
    ensures e in Forwards(rules, keys)
  {
    hide ExpandEntries;
    var n := |keys| - 1;
    assert keys == keys[..n] + [keys[n]];
    if k in keys[..n] {
      ForwardListed(rules, keys[..n], k, e);
    }
  }
}
