/** The lines of the rule dump, word for word: which ports, masquerades and bridges they name. */
module NftLines {
  import opened Text
  import opened Collections
  import opened NftRules
  import opened NftDump
  import opened NftText

  // ----- The words -----

  function PortWords(p: int): string {
    "    udp dport " + PrintInt(p) + " accept  # WireGuard"
  }

  function NatWords(iface: string, subnet: string): string {
    "    iifname \"" + iface + "\" oifname != \"" + iface + "\" masquerade  # NAT for " + subnet
  }

  function AcceptWords(i: string, o: string, comment: string): string {
    "    iifname \"" + i + "\" oifname \"" + o + "\" accept  # " + comment
  }

  /** What the dump calls the rule for traffic from i to o. */
  function Remark(r: Rule, i: string, o: string): string {
    if r.kind.InterPeer? then "inter-peer forwarding"
    else if r.direction == "bidirectional" then "bridge " + r.iface + " <-> " + r.ifaceB
    else "bridge " + i + " -> " + o
  }

  // ----- A line of the text -----

  ghost predicate Says(text: string, line: string) {
    line in Split(text, '\n')
  }

  lemma SaysLines(d: Dump, quote: Quoting, line: string)
    requires QuotableDump(d, quote)
    ensures Says(Join(DumpLines(d, quote), '\n'), line) <==> line in DumpLines(d, quote)
  {
    hide DumpLines, Join, Split, QuotableDump;
    AllSingle(d, quote);
    JoinSplits(DumpLines(d, quote), '\n');
  }

  lemma AllSingle(d: Dump, quote: Quoting)
    requires QuotableDump(d, quote)
    ensures DumpLines(d, quote) != [] && Single(DumpLines(d, quote))
  {
    hide ReadPair, Reads, Single, QuotableDump, Chain, InputLines, NatLines, ForwardLines;
    var inputs := Chain("input", INPUT_HOOK, InputLines(d));
    var nats := Chain("postrouting", NAT_HOOK, NatLines(d, quote));
    var forwards := Chain("forward", FORWARD_HOOK, ForwardLines(d, quote));
    hide INPUT_HOOK, NAT_HOOK, FORWARD_HOOK;
    InputLinesRead(d, "", "");
    NatLinesRead(d, quote, "", "");
    ForwardLinesRead(d, quote, "", "");
    InputHookUnquoted();
    NatHookUnquoted();
    ForwardHookUnquoted();
    ChainReads("input", INPUT_HOOK, InputLines(d), "", "");
    ChainReads("postrouting", NAT_HOOK, NatLines(d, quote), "", "");
    ChainReads("forward", FORWARD_HOOK, ForwardLines(d, quote), "", "");
    ReadsConcat(["table ip wgpilot {"], inputs, "", "");
    ReadsConcat(["table ip wgpilot {"] + inputs, nats, "", "");
    ReadsConcat(["table ip wgpilot {"] + inputs + nats, forwards, "", "");
    ReadsConcat(["table ip wgpilot {"] + inputs + nats + forwards, ["}"], "", "");
    OneLineReads("table ip wgpilot {", "", "");
    OneLineReads("}", "", "");
  }

  /** A heading: any line of the dump that is none of the three kinds. */
  ghost predicate Heading(line: string) {
    |line| < 5 || line[2] != ' ' || line[4] == 't'
  }

  lemma HeadingWords(name: string, hook: string)
    ensures Heading("table ip wgpilot {") && Heading("}") && Heading("  }")
    ensures Heading("  chain " + name + " {") && Heading("    type " + hook + ";")
  {
    assert ("  chain " + name + " {")[2] == 'c';
    assert ("    type " + hook + ";")[4] == 't';
  }

  lemma InChain(name: string, hook: string, rules: seq<string>, line: string)
    requires !Heading(line)
    ensures line in Chain(name, hook, rules) <==> line in rules
  {
    hide Heading;
    HeadingWords(name, hook);
  }

  /** A line that is no heading is in one of the three chains. */
  lemma InSomeChain(d: Dump, quote: Quoting, line: string)
    requires !Heading(line)
    ensures line in DumpLines(d, quote) <==>
            line in InputLines(d) || line in NatLines(d, quote) || line in ForwardLines(d, quote)
  {
    hide Heading, Chain, InputLines, NatLines, ForwardLines, INPUT_HOOK, NAT_HOOK, FORWARD_HOOK;
    HeadingWords("", "");
    InChain("input", INPUT_HOOK, InputLines(d), line);
    InChain("postrouting", NAT_HOOK, NatLines(d, quote), line);
    InChain("forward", FORWARD_HOOK, ForwardLines(d, quote), line);
  }

  // ----- Ports -----

  lemma PortWordsFacts(p: int)
    ensures '"' !in PortWords(p) && !Heading(PortWords(p)) && PortWords(p) == InputLine(p)
  {
    hide PrintInt;
    PrintIntChars(p);
    assert PortWords(p)[2] == ' ' && PortWords(p)[4] == 'u';
  }

  lemma PortWordsInjective(p: int, q: int)
    requires PortWords(p) == PortWords(q)
    ensures p == q
  {
    hide PrintInt;
    var a, z := "    udp dport ", " accept  # WireGuard";
    assert PortWords(p)[|a|..|PortWords(p)| - |z|] == PrintInt(p);
    assert PortWords(q)[|a|..|PortWords(q)| - |z|] == PrintInt(q);
    PrintIntInjective(p, q);
  }

  lemma QuotedLines(d: Dump, quote: Quoting)
    requires QuotableDump(d, quote)
    ensures forall i :: 0 <= i < |d.nats| ==> '"' in NatLine(d.nats[i], quote)
    ensures forall i :: 0 <= i < |d.forwards| ==> '"' in ForwardLine(d.forwards[i], quote)
  {
    hide NatLine, ForwardLine, Quoted;
    forall i | 0 <= i < |d.nats|
      ensures '"' in NatLine(d.nats[i], quote)
    {
      NatLineIs(d.nats[i], quote);
      HasQuote("    iifname ", d.nats[i].0, " oifname != ", d.nats[i].0, " masquerade  # NAT for " + d.nats[i].1);
    }
    forall i | 0 <= i < |d.forwards|
      ensures '"' in ForwardLine(d.forwards[i], quote)
    {
      var e := d.forwards[i];
      ForwardLineIs(e, quote);
      HasQuote("    iifname ", e.ifaceIn, " oifname ", e.ifaceOut, " accept  # " + e.comment);
    }
  }

  lemma HasQuote(a: string, x: string, b: string, y: string, c: string)
    ensures '"' in Quoted(a, x, b, y, c)
  {
    assert Quoted(a, x, b, y, c)[|a|] == '"';
  }

  /** The dump names a port exactly when it lists it. */
  lemma PortSaid(d: Dump, quote: Quoting, p: int)
    requires QuotableDump(d, quote)
    ensures Says(Join(DumpLines(d, quote), '\n'), PortWords(p)) <==> p in d.inputs
  {
    hide PortWords, InputLine, NatLine, ForwardLine, Heading, DumpLines, Says, QuotableDump;
    var line := PortWords(p);
    SaysLines(d, quote, line);
    PortWordsFacts(p);
    QuotedLines(d, quote);
    InSomeChain(d, quote, line);
    forall i | 0 <= i < |d.inputs|
      ensures InputLine(d.inputs[i]) == line <==> d.inputs[i] == p
    {
      PortWordsFacts(d.inputs[i]);
      if InputLine(d.inputs[i]) == line {
        PortWordsInjective(d.inputs[i], p);
      }
    }
    if p in d.inputs {
      var i :| 0 <= i < |d.inputs| && d.inputs[i] == p;
      assert InputLines(d)[i] == line;
    }
  }

  // ----- Masquerades -----

  lemma NatWordsFacts(iface: string, subnet: string)
    requires '"' !in iface
    ensures var tail := " masquerade  # NAT for " + subnet;
            && NatWords(iface, subnet) == Quoted("    iifname ", iface, " oifname != ", iface, tail)
            && !Heading(NatWords(iface, subnet)) && '"' in NatWords(iface, subnet)
            && ReadPair(NatWords(iface, subnet)).None?
  {
    hide Split, Quoted;
    var tail := " masquerade  # NAT for " + subnet;
    NatIsQuoted(iface, subnet);
    SplitQuoted("    iifname ", iface, " oifname != ", iface, tail);
  }

  lemma NatIsQuoted(iface: string, subnet: string)
    ensures var line := NatWords(iface, subnet);
            && line == Quoted("    iifname ", iface, " oifname != ", iface, " masquerade  # NAT for " + subnet)
            && |line| > 12 && line[2] == ' ' && line[4] == 'i' && line[12] == '"'
  {
    hide Quoted;
    QuotedStart(iface, " oifname != ", iface, " masquerade  # NAT for " + subnet);
    QuotedFlat("    iifname ", iface, " oifname != ", iface, " masquerade  # NAT for ", subnet);
    NatPieces();
  }

  lemma NatPieces()
    ensures "    iifname \"" == "    iifname " + ['"']
    ensures "\" oifname != \"" == ['"'] + " oifname != " + ['"']
    ensures "\" masquerade  # NAT for " == ['"'] + " masquerade  # NAT for "
  {
  }

  lemma QuotedFlat(a: string, x: string, b: string, y: string, c: string, d: string)
    ensures (a + ['"']) + x + (['"'] + b + ['"']) + y + (['"'] + c) + d == Quoted(a, x, b, y, c + d)
  {
  }

  lemma QuotedStart(x: string, b: string, y: string, c: string)
    ensures var line := Quoted("    iifname ", x, b, y, c);
            |line| > 12 && line[2] == ' ' && line[4] == 'i' && line[12] == '"'
  {
    hide Quoted;
    QuotedHead("    iifname ", x, b, y, c);
  }

  lemma QuotedHead(a: string, x: string, b: string, y: string, c: string)
    ensures var line := Quoted(a, x, b, y, c);
            |line| > |a| && line[|a|] == '"' && forall i :: 0 <= i < |a| ==> line[i] == a[i]
  {
  }

  lemma NatWordsInjective(a: string, s: string, b: string, t: string)
    requires '"' !in a && '"' !in b && NatWords(a, s) == NatWords(b, t)
    ensures a == b && s == t
  {
    hide NatWords, ReadPair, Heading, Split;
    NatWordsFacts(a, s);
    NatWordsFacts(b, t);
    SecondField("    iifname ", a, " oifname != ", a, " masquerade  # NAT for " + s);
    SecondField("    iifname ", b, " oifname != ", b, " masquerade  # NAT for " + t);
    SameTail(a, s, t);
  }

  lemma SecondField(a: string, x: string, b: string, y: string, c: string)
    requires '"' !in a && '"' !in x && '"' !in b && '"' !in y
    ensures |Split(Quoted(a, x, b, y, c), '"')| > 1 && Split(Quoted(a, x, b, y, c), '"')[1] == x
  {
    hide Split, Quoted;
    SplitQuoted(a, x, b, y, c);
    assert ([a, x, b, y] + Split(c, '"'))[1] == x;
  }

  lemma SameTail(a: string, s: string, t: string)
    requires Quoted("    iifname ", a, " oifname != ", a, " masquerade  # NAT for " + s)
          == Quoted("    iifname ", a, " oifname != ", a, " masquerade  # NAT for " + t)
    ensures s == t
  {
    var head := Quoted("    iifname ", a, " oifname != ", a, " masquerade  # NAT for ");
    assert Quoted("    iifname ", a, " oifname != ", a, " masquerade  # NAT for " + s) == head + s;
    assert Quoted("    iifname ", a, " oifname != ", a, " masquerade  # NAT for " + t) == head + t;
    TailEqual(head, s, t);
  }

  /** The dump names a masquerade exactly when it lists it. */
  lemma NatSaid(d: Dump, quote: Quoting, iface: string, subnet: string)
    requires QuotableDump(d, quote) && '"' !in iface
    ensures Says(Join(DumpLines(d, quote), '\n'), NatWords(iface, subnet)) <==> (iface, subnet) in d.nats
  {
    hide NatWords, InputLine, NatLine, ForwardLine, Heading, DumpLines, Says, QuotableEntry, ReadPair, Quoted;
    var line := NatWords(iface, subnet);
    SaysLines(d, quote, line);
    NatWordsFacts(iface, subnet);
    InSomeChain(d, quote, line);
    forall i | 0 <= i < |d.inputs|
      ensures InputLine(d.inputs[i]) != line
    {
      PortWordsFacts(d.inputs[i]);
    }
    forall i | 0 <= i < |d.forwards|
      ensures ForwardLine(d.forwards[i], quote) != line
    {
      ReadForward(d.forwards[i], quote);
    }
    forall i | 0 <= i < |d.nats|
      ensures NatLine(d.nats[i], quote) == line <==> d.nats[i] == (iface, subnet)
    {
      NatLineIs(d.nats[i], quote);
      NatWordsFacts(d.nats[i].0, d.nats[i].1);
      if NatLine(d.nats[i], quote) == line {
        NatWordsInjective(d.nats[i].0, d.nats[i].1, iface, subnet);
      }
    }
    if (iface, subnet) in d.nats {
      var i :| 0 <= i < |d.nats| && d.nats[i] == (iface, subnet);
      assert NatLines(d, quote)[i] == line;
    }
  }

  // ----- The whole dump -----

  /** An entry is printed with its comment. */
  lemma EntrySaid(d: Dump, quote: Quoting, e: Entry)
    requires QuotableDump(d, quote) && e in d.forwards
    ensures Says(Join(DumpLines(d, quote), '\n'), AcceptWords(e.ifaceIn, e.ifaceOut, e.comment))
  {
    hide Says, DumpLines, Heading, QuotableEntry, ForwardLine;
    var i :| 0 <= i < |d.forwards| && d.forwards[i] == e;
    AcceptLine(e, quote);
    SaysLines(d, quote, ForwardLine(e, quote));
    InSomeChain(d, quote, ForwardLine(e, quote));
    assert ForwardLines(d, quote)[i] == ForwardLine(e, quote);
  }

  lemma AcceptLine(e: Entry, quote: Quoting)
    requires QuotableEntry(e, quote)
    ensures ForwardLine(e, quote) == AcceptWords(e.ifaceIn, e.ifaceOut, e.comment) && !Heading(ForwardLine(e, quote))
  {
    var line := ForwardLine(e, quote);
    assert line == AcceptWords(e.ifaceIn, e.ifaceOut, e.comment);
    assert line[2] == ' ' && line[4] == 'i';
  }

  lemma Remarked(r: Rule, i: string, o: string)
    requires RuleAccepts(r, i, o)
    ensures Entry(i, o, Remark(r, i, o)) in ExpandEntries(r)
  {
  }

  /** The text of the dump of plain names names exactly the open ports and the masquerades of
      the rules, and for every accepted pair says why. */
  lemma DumpSays(rules: map<string, Rule>, keys: seq<string>, d: Dump, quote: Quoting)
    requires SortedKeys(keys, rules) && (forall k :: k in keys ==> k in rules) && QuotableRules(rules, quote)
    requires d.inputs == Inputs(rules, keys) && d.nats == Nats(rules, keys)
    requires multiset(d.forwards) == multiset(Forwards(rules, keys))
    ensures var text := Join(DumpLines(d, quote), '\n');
            && (forall p :: Says(text, PortWords(p)) <==>
                  exists r :: r in rules.Values && r.kind.UdpInput? && r.port == p)
            && (forall n, t :: '"' !in n ==> (Says(text, NatWords(n, t)) <==>
                  exists r :: r in rules.Values && r.kind.NatMasquerade? && r.iface == n && r.subnet == t))
            && (forall r, i, o :: r in rules.Values && RuleAccepts(r, i, o) ==>
                  Says(text, AcceptWords(i, o, Remark(r, i, o))))
  {
    hide Says, PortWords, NatWords, AcceptWords, Remark, RuleAccepts, Inputs, Nats, Forwards, QuotableRules, DumpLines,
         Join, QuotableDump, ExpandEntries, Sorted;
    PlainSelected(rules, keys, d, quote);
    assert forall k :: k in keys <==> k in rules by { assert forall k :: k in keys <==> k in Elems(keys); }
    var text := Join(DumpLines(d, quote), '\n');
    forall p
      ensures Says(text, PortWords(p)) <==> exists r :: r in rules.Values && r.kind.UdpInput? && r.port == p
    {
      PortSaid(d, quote, p);
      InputsAt(rules, keys, p);
      if r :| r in rules.Values && r.kind.UdpInput? && r.port == p {
        var k :| k in rules && rules[k] == r;
      }
    }
    forall n, t | '"' !in n
      ensures Says(text, NatWords(n, t)) <==>
              exists r :: r in rules.Values && r.kind.NatMasquerade? && r.iface == n && r.subnet == t
    {
      NatSaid(d, quote, n, t);
      NatsAt(rules, keys, (n, t));
      if r :| r in rules.Values && r.kind.NatMasquerade? && r.iface == n && r.subnet == t {
        var k :| k in rules && rules[k] == r;
      }
    }
    forall r, i, o | r in rules.Values && RuleAccepts(r, i, o)
      ensures Says(text, AcceptWords(i, o, Remark(r, i, o)))
    {
      var k :| k in rules && rules[k] == r;
      Remarked(r, i, o);
      ForwardListed(rules, keys, k, Entry(i, o, Remark(r, i, o)));
      assert Entry(i, o, Remark(r, i, o)) in multiset(Forwards(rules, keys));
      assert Entry(i, o, Remark(r, i, o)) in multiset(d.forwards);
      EntrySaid(d, quote, Entry(i, o, Remark(r, i, o)));
    }
  }

  lemma InputChainWords(line: string)
    ensures Chain("input", INPUT_HOOK, [line])
         == ["  chain input {", "    type filter hook input priority 0;", line, "  }"]
  {
    assert "  chain " + "input" + " {" == "  chain input {";
    assert "    type " + INPUT_HOOK + ";" == "    type filter hook input priority 0;";
  }

  lemma NatChainWords(line: string)
    ensures Chain("postrouting", NAT_HOOK, [line])
         == ["  chain postrouting {", "    type nat hook postrouting priority 100;", line, "  }"]
  {
    assert "  chain " + "postrouting" + " {" == "  chain postrouting {";
    assert "    type " + NAT_HOOK + ";" == "    type nat hook postrouting priority 100;";
  }

  lemma ForwardChainWords(line: string)
    ensures Chain("forward", FORWARD_HOOK, [line])
         == ["  chain forward {", "    type filter hook forward priority 0;", line, "  }"]
  {
    assert "  chain " + "forward" + " {" == "  chain forward {";
    assert "    type " + FORWARD_HOOK + ";" == "    type filter hook forward priority 0;";
  }

  /** The frame, word for word, where every chain has a rule, and where none has. */
  lemma DumpFrame(p: int, n: (string, string), e: Entry, quote: Quoting)
    ensures DumpLines(Dump([p], [n], [e]), quote) ==
            ["table ip wgpilot {"]
            + ["  chain input {", "    type filter hook input priority 0;", InputLine(p), "  }"]
            + ["  chain postrouting {", "    type nat hook postrouting priority 100;", NatLine(n, quote), "  }"]
            + ["  chain forward {", "    type filter hook forward priority 0;", ForwardLine(e, quote), "  }"]
            + ["}"]
    ensures DumpLines(Dump([], [], []), quote) == ["table ip wgpilot {", "}"]
  {
    hide InputLine, NatLine, ForwardLine, INPUT_HOOK, NAT_HOOK, FORWARD_HOOK;
    var d := Dump([p], [n], [e]);
    assert InputLines(d) == [InputLine(p)] && NatLines(d, quote) == [NatLine(n, quote)];
    assert ForwardLines(d, quote) == [ForwardLine(e, quote)];
    InputChainWords(InputLine(p));
    NatChainWords(NatLine(n, quote));
    ForwardChainWords(ForwardLine(e, quote));
    NoChains(quote);
  }

  lemma NoChains(quote: Quoting)
    ensures DumpLines(Dump([], [], []), quote) == ["table ip wgpilot {", "}"]
  {
    var d := Dump([], [], []);
    assert InputLines(d) == [] && NatLines(d, quote) == [] && ForwardLines(d, quote) == [];
  }
}
