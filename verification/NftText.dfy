/** The rule dump as text, and what can be read off it. */
module NftText {
  import opened Wrappers
  import opened Text
  import opened NftRules
  import opened NftHistory
  import opened NftDump

  /** How the verb %q prints a string. */
  type Quoting = string -> string

  // ----- The lines -----

  function InputLine(port: int): string {
    "    udp dport " + PrintInt(port) + " accept  # WireGuard"
  }

  function NatLine(n: (string, string), quote: Quoting): string {
    "    iifname " + quote(n.0) + " oifname != " + quote(n.0) + " masquerade  # NAT for " + n.1
  }

  function ForwardLine(e: Entry, quote: Quoting): string {
    "    iifname " + quote(e.ifaceIn) + " oifname " + quote(e.ifaceOut) + " accept  # " + e.comment
  }

  /** A chain is printed only when it has rules. */
  function Chain(name: string, hook: string, rules: seq<string>): seq<string> {
    if rules == [] then [] else ["  chain " + name + " {", "    type " + hook + ";"] + rules + ["  }"]
  }

  function InputLines(d: Dump): seq<string> {
    seq(|d.inputs|, i requires 0 <= i < |d.inputs| => InputLine(d.inputs[i]))
  }

  function NatLines(d: Dump, quote: Quoting): seq<string> {
    seq(|d.nats|, i requires 0 <= i < |d.nats| => NatLine(d.nats[i], quote))
  }

  function ForwardLines(d: Dump, quote: Quoting): seq<string> {
    seq(|d.forwards|, i requires 0 <= i < |d.forwards| => ForwardLine(d.forwards[i], quote))
  }

  const INPUT_HOOK: string := "filter hook input priority 0"
  const NAT_HOOK: string := "nat hook postrouting priority 100"
  const FORWARD_HOOK: string := "filter hook forward priority 0"

  function DumpLines(d: Dump, quote: Quoting): seq<string> {
    ["table ip wgpilot {"]
      + Chain("input", INPUT_HOOK, InputLines(d))
      + Chain("postrouting", NAT_HOOK, NatLines(d, quote))
      + Chain("forward", FORWARD_HOOK, ForwardLines(d, quote))
      + ["}"]
  }

  // ----- Printing -----

  method Print(lines: seq<string>) returns (text: string)
    ensures text == Join(lines, '\n')
  {
    if lines == [] {
      return "";
    }
    text := lines[0];
    for i := 1 to |lines|
      invariant text == Join(lines[..i], '\n')
    {
      assert lines[..i + 1][..i] == lines[..i];
      text := text + ['\n'] + lines[i];
    }
    assert lines[..|lines|] == lines;
  }

  /** The whole dump: selected, ordered and worded. */
  method FormatRuleset(rules: map<string, Rule>, quote: Quoting) returns (text: string, ghost d: Dump)
    ensures text == Join(DumpLines(d, quote), '\n')
    ensures exists keys ::
              && SortedKeys(keys, rules) && (forall k :: k in keys ==> k in rules)
              && d.inputs == Inputs(rules, keys) && d.nats == Nats(rules, keys)
              && multiset(d.forwards) == multiset(Forwards(rules, keys)) && Sorted(d.forwards, EntryAtMost)
    ensures QuotableRules(rules, quote) ==> forall i, o :: TextLists(text, i, o) <==> Accepts(rules.Values, i, o)
  {
    hide Inputs, Nats, Forwards, Sorted, SortedKeys, Accepts, TextLists, DumpLines, Lists;
    var dump, keys := SelectRules(rules);
    d := dump;
    text := Print(DumpLines(dump, quote));
    if QuotableRules(rules, quote) {
      PlainSelected(rules, keys, dump, quote);
      forall i, o
        ensures TextLists(text, i, o) <==> Lists(dump.forwards, i, o)
      {
        DumpReads(dump, quote, i, o);
      }
    }
  }

  // ----- Reading the pairs off the text -----

  /** The interfaces of a line that accepts forwarding between two quoted names. */
  function ReadPair(line: string): Option<(string, string)> {
    var f := Split(line, '"');
    if |f| >= 5 && f[0] == "    iifname " && f[2] == " oifname " && |f[4]| >= 8 && f[4][..8] == " accept "
    then Some((f[1], f[3])) else None
  }

  ghost predicate TextLists(text: string, i: string, o: string) {
    exists k :: 0 <= k < |Split(text, '\n')| && ReadPair(Split(text, '\n')[k]) == Some((i, o))
  }

  /** A name that is printed between quotes as it is, on one line. */
  ghost predicate Quotable(name: string, quote: Quoting) {
    '"' !in name && '\n' !in name && quote(name) == ['"'] + name + ['"']
  }

  ghost predicate QuotableRule(r: Rule, quote: Quoting) {
    Quotable(r.iface, quote) && Quotable(r.ifaceB, quote) && '\n' !in r.subnet
  }

  ghost predicate QuotableRules(rules: map<string, Rule>, quote: Quoting) {
    forall k :: k in rules ==> QuotableRule(rules[k], quote)
  }

  ghost predicate QuotableEntry(e: Entry, quote: Quoting) {
    Quotable(e.ifaceIn, quote) && Quotable(e.ifaceOut, quote) && '\n' !in e.comment
  }

  ghost predicate QuotableDump(d: Dump, quote: Quoting) {
    && (forall i :: 0 <= i < |d.nats| ==> Quotable(d.nats[i].0, quote) && '\n' !in d.nats[i].1)
    && (forall i :: 0 <= i < |d.forwards| ==> QuotableEntry(d.forwards[i], quote))
  }

  lemma ExpandedPlain(r: Rule, quote: Quoting)
    requires QuotableRule(r, quote)
    ensures forall e :: e in ExpandEntries(r) ==> QuotableEntry(e, quote)
  {
    hide Quotable;
    assert '\n' !in r.iface && '\n' !in r.ifaceB by { OnOneLine(r, quote); }
    CommentsOnOneLine(r.iface, r.ifaceB);
    CommentsOnOneLine(r.ifaceB, r.iface);
  }

  lemma OnOneLine(r: Rule, quote: Quoting)
    requires QuotableRule(r, quote)
    ensures '\n' !in r.iface && '\n' !in r.ifaceB
  {
  }

  lemma CommentsOnOneLine(a: string, b: string)
    requires '\n' !in a && '\n' !in b
    ensures '\n' !in "bridge " + a + " -> " + b && '\n' !in "bridge " + a + " <-> " + b
    ensures '\n' !in "inter-peer forwarding"
  {
  }

  lemma {:induction false} SelectedPlain(rules: map<string, Rule>, keys: seq<string>, quote: Quoting)
    requires QuotableRules(rules, quote) && forall k :: k in keys ==> k in rules
    ensures forall e :: e in Forwards(rules, keys) ==> QuotableEntry(e, quote)
    ensures forall i :: 0 <= i < |Nats(rules, keys)| ==>
              Quotable(Nats(rules, keys)[i].0, quote) && '\n' !in Nats(rules, keys)[i].1
  {
    hide QuotableEntry, Quotable, ExpandEntries;
    if keys != [] {
      var n := |keys| - 1;
      SelectedPlain(rules, keys[..n], quote);
      ExpandedPlain(rules[keys[n]], quote);
      assert QuotableRule(rules[keys[n]], quote);
    }
  }

  lemma PlainSelected(rules: map<string, Rule>, keys: seq<string>, d: Dump, quote: Quoting)
    requires QuotableRules(rules, quote) && forall k :: k in keys ==> k in rules
    requires d.nats == Nats(rules, keys) && multiset(d.forwards) == multiset(Forwards(rules, keys))
    ensures QuotableDump(d, quote)
  {
    hide QuotableEntry, Quotable, Forwards, Nats;
    SelectedPlain(rules, keys, quote);
    forall i | 0 <= i < |d.forwards|
      ensures QuotableEntry(d.forwards[i], quote)
    {
      assert d.forwards[i] in multiset(d.forwards);
      assert d.forwards[i] in multiset(Forwards(rules, keys));
    }
  }

  // ----- One line -----

  lemma ReadForward(e: Entry, quote: Quoting)
    requires QuotableEntry(e, quote)
    ensures ReadPair(ForwardLine(e, quote)) == Some((e.ifaceIn, e.ifaceOut)) && '\n' !in ForwardLine(e, quote)
  {
    hide Split, Quoted, ForwardLine;
    var tail := " accept  # " + e.comment;
    ForwardLineIs(e, quote);
    QuotedOnOneLine("    iifname ", e.ifaceIn, " oifname ", e.ifaceOut, tail);
    SplitQuoted("    iifname ", e.ifaceIn, " oifname ", e.ifaceOut, tail);
    assert tail[..8] == " accept ";
    FirstField(tail, 8);
  }

  /** Two names between quotes, with text around them. */
  function Quoted(a: string, x: string, b: string, y: string, c: string): string {
    a + ['"'] + (x + ['"'] + (b + ['"'] + (y + ['"'] + c)))
  }

  lemma SplitQuoted(a: string, x: string, b: string, y: string, c: string)
    requires '"' !in a && '"' !in x && '"' !in b && '"' !in y
    ensures Split(Quoted(a, x, b, y, c), '"') == [a, x, b, y] + Split(c, '"')
  {
    hide Split;
    SplitHead(a, '"', x + ['"'] + (b + ['"'] + (y + ['"'] + c)));
    SplitHead(x, '"', b + ['"'] + (y + ['"'] + c));
    SplitHead(b, '"', y + ['"'] + c);
    SplitHead(y, '"', c);
  }

  /** The first field of a text begins as the text does, up to its first quote. */
  lemma FirstField(s: string, n: nat)
    requires n <= |s| && '"' !in s[..n]
    ensures |Split(s, '"')[0]| >= n && Split(s, '"')[0][..n] == s[..n]
  {
    assert forall k :: 0 <= k < n ==> s[k] in s[..n];
  }

  lemma ReadNat(n: (string, string), quote: Quoting)
    requires Quotable(n.0, quote) && '\n' !in n.1
    ensures ReadPair(NatLine(n, quote)).None? && '\n' !in NatLine(n, quote)
  {
    hide Split, Quoted, NatLine;
    var tail := " masquerade  # NAT for " + n.1;
    NatLineIs(n, quote);
    SplitQuoted("    iifname ", n.0, " oifname != ", n.0, tail);
    QuotedOnOneLine("    iifname ", n.0, " oifname != ", n.0, tail);
  }

  lemma NatLineIs(n: (string, string), quote: Quoting)
    requires Quotable(n.0, quote)
    ensures NatLine(n, quote) == Quoted("    iifname ", n.0, " oifname != ", n.0, " masquerade  # NAT for " + n.1)
  {
  }

  lemma ForwardLineIs(e: Entry, quote: Quoting)
    requires QuotableEntry(e, quote)
    ensures ForwardLine(e, quote)
         == Quoted("    iifname ", e.ifaceIn, " oifname ", e.ifaceOut, " accept  # " + e.comment)
  {
  }

  lemma QuotedOnOneLine(a: string, x: string, b: string, y: string, c: string)
    requires '\n' !in a && '\n' !in x && '\n' !in b && '\n' !in y && '\n' !in c
    ensures '\n' !in Quoted(a, x, b, y, c)
  {
  }

  /** A line without a quote names no pair. */
  lemma ReadUnquoted(line: string)
    requires '"' !in line
    ensures ReadPair(line).None?
  {
    SplitWhole(line, '"');
  }

  lemma ReadInput(port: int)
    ensures ReadPair(InputLine(port)).None? && '\n' !in InputLine(port)
  {
    hide PrintInt;
    PrintIntChars(port);
    ReadUnquoted(InputLine(port));
  }

  lemma PrintIntChars(n: int)
    ensures '"' !in PrintInt(n) && '\n' !in PrintInt(n)
  {
  }

  // ----- All lines -----

  ghost predicate Reads(lines: seq<string>, i: string, o: string) {
    exists k :: 0 <= k < |lines| && ReadPair(lines[k]) == Some((i, o))
  }

  ghost predicate Single(lines: seq<string>) {
    forall k :: 0 <= k < |lines| ==> '\n' !in lines[k]
  }

  lemma ReadsConcat(a: seq<string>, b: seq<string>, i: string, o: string)
    ensures Reads(a + b, i, o) <==> Reads(a, i, o) || Reads(b, i, o)
    ensures Single(a) && Single(b) ==> Single(a + b)
  {
    hide ReadPair;
    var all := a + b;
    if Reads(a, i, o) {
      var k :| 0 <= k < |a| && ReadPair(a[k]) == Some((i, o));
      assert all[k] == a[k];
    }
    if Reads(b, i, o) {
      var k :| 0 <= k < |b| && ReadPair(b[k]) == Some((i, o));
      assert all[|a| + k] == b[k];
    }
  }

  lemma OneLineReads(line: string, i: string, o: string)
    requires '"' !in line && '\n' !in line
    ensures !Reads([line], i, o) && Single([line])
  {
    hide ReadPair;
    ReadUnquoted(line);
  }

  lemma ChainReads(name: string, hook: string, rules: seq<string>, i: string, o: string)
    requires '"' !in name && '\n' !in name && '"' !in hook && '\n' !in hook && Single(rules)
    ensures Reads(Chain(name, hook, rules), i, o) <==> Reads(rules, i, o)
    ensures Single(Chain(name, hook, rules))
  {
    hide ReadPair, Reads, Single;
    NoLines(i, o);
    if rules != [] {
      var a, b := "  chain " + name + " {", "    type " + hook + ";";
      OneLineReads(a, i, o);
      OneLineReads(b, i, o);
      OneLineReads("  }", i, o);
      assert [a, b] == [a] + [b];
      ReadsConcat([a], [b], i, o);
      ReadsConcat([a, b], rules, i, o);
      ReadsConcat([a, b] + rules, ["  }"], i, o);
    }
  }

  lemma NoLines(i: string, o: string)
    ensures !Reads([], i, o) && Single([])
  {
  }

  lemma InputLinesRead(d: Dump, i: string, o: string)
    ensures !Reads(InputLines(d), i, o) && Single(InputLines(d))
  {
    hide ReadPair, InputLine;
    forall k | 0 <= k < |d.inputs|
      ensures ReadPair(InputLine(d.inputs[k])).None? && '\n' !in InputLine(d.inputs[k])
    {
      ReadInput(d.inputs[k]);
    }
  }

  lemma NatLinesRead(d: Dump, quote: Quoting, i: string, o: string)
    requires QuotableDump(d, quote)
    ensures !Reads(NatLines(d, quote), i, o) && Single(NatLines(d, quote))
  {
    hide ReadPair, NatLine;
    forall k | 0 <= k < |d.nats|
      ensures ReadPair(NatLine(d.nats[k], quote)).None? && '\n' !in NatLine(d.nats[k], quote)
    {
      ReadNat(d.nats[k], quote);
    }
  }

  lemma ForwardLinesRead(d: Dump, quote: Quoting, i: string, o: string)
    requires QuotableDump(d, quote)
    ensures Reads(ForwardLines(d, quote), i, o) <==> Lists(d.forwards, i, o)
    ensures Single(ForwardLines(d, quote))
  {
    hide ReadPair, ForwardLine, QuotableEntry;
    var lines := ForwardLines(d, quote);
    forall k | 0 <= k < |d.forwards|
      ensures ReadPair(lines[k]) == Some((d.forwards[k].ifaceIn, d.forwards[k].ifaceOut)) && '\n' !in lines[k]
    {
      ReadForward(d.forwards[k], quote);
    }
    if Lists(d.forwards, i, o) {
      var e :| e in d.forwards && e.ifaceIn == i && e.ifaceOut == o;
      var k :| 0 <= k < |d.forwards| && d.forwards[k] == e;
      assert ReadPair(lines[k]) == Some((i, o));
    }
  }

  /** The text of a dump of plain names lists a pair exactly when the dump has an entry for it. */
  lemma DumpReads(d: Dump, quote: Quoting, i: string, o: string)
    requires QuotableDump(d, quote)
    ensures TextLists(Join(DumpLines(d, quote), '\n'), i, o) <==> Lists(d.forwards, i, o)
  {
    hide ReadPair, Reads, Single, Lists, QuotableDump, Chain, InputLines, NatLines, ForwardLines, Split, Join;
    var inputs := Chain("input", INPUT_HOOK, InputLines(d));
    var nats := Chain("postrouting", NAT_HOOK, NatLines(d, quote));
    var forwards := Chain("forward", FORWARD_HOOK, ForwardLines(d, quote));
    hide INPUT_HOOK, NAT_HOOK, FORWARD_HOOK;
    InputLinesRead(d, i, o);
    NatLinesRead(d, quote, i, o);
    ForwardLinesRead(d, quote, i, o);
    InputHookUnquoted();
    NatHookUnquoted();
    ForwardHookUnquoted();
    ChainReads("input", INPUT_HOOK, InputLines(d), i, o);
    ChainReads("postrouting", NAT_HOOK, NatLines(d, quote), i, o);
    ChainReads("forward", FORWARD_HOOK, ForwardLines(d, quote), i, o);
    Framed(inputs, nats, forwards, i, o);
    JoinReads(DumpLines(d, quote), i, o);
  }

  lemma InputHookUnquoted()
    ensures '"' !in INPUT_HOOK && '\n' !in INPUT_HOOK
  {
  }

  lemma NatHookUnquoted()
    ensures '"' !in NAT_HOOK && '\n' !in NAT_HOOK
  {
  }

  lemma ForwardHookUnquoted()
    ensures '"' !in FORWARD_HOOK && '\n' !in FORWARD_HOOK
  {
  }

  /** The frame around the chains adds no pair. */
  lemma Framed(a: seq<string>, b: seq<string>, c: seq<string>, i: string, o: string)
    requires Single(a) && Single(b) && Single(c) && !Reads(a, i, o) && !Reads(b, i, o)
    ensures var lines := ["table ip wgpilot {"] + a + b + c + ["}"];
            Single(lines) && (Reads(lines, i, o) <==> Reads(c, i, o))
  {
    hide ReadPair, Reads, Single;
    var first, last := ["table ip wgpilot {"], ["}"];
    OneLineReads(first[0], i, o);
    OneLineReads(last[0], i, o);
    ReadsConcat(first, a, i, o);
    ReadsConcat(first + a, b, i, o);
    ReadsConcat(first + a + b, c, i, o);
    ReadsConcat(first + a + b + c, last, i, o);
  }

  lemma JoinReads(lines: seq<string>, i: string, o: string)
    requires lines != [] && Single(lines)
    ensures TextLists(Join(lines, '\n'), i, o) <==> Reads(lines, i, o)
  {
    hide ReadPair, Join, Split;
    JoinSplits(lines, '\n');
  }
}
