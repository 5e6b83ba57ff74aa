/**
 What a wg-quick file means, said without a scanner: group the lines under their section
 headers, and take the last value each key is given there.
 */
module WgQuickSpec {
  import opened Wrappers
  import opened Text
  import opened WgQuick
  import opened Arith
  import Gen = WgQuickGen

  // ----- One line -----

  predicate Spaces(s: string) {
    forall i :: 0 <= i < |s| ==> IsSpace(s[i])
  }

  /** The line is a section header of that name. */
  predicate Header(line: string, name: string) {
    Lower(TrimSpace(line)) == name
  }

  /** What stands before and after the first '='. */
  function Assignment(line: string): Option<(string, string)> {
    var i := IndexOf(line, '=');
    if i == |line| then None else Some((Lower(TrimSpace(line[..i])), TrimSpace(line[i + 1..])))
  }

  function ValueFor(line: string, key: string): Option<string> {
    match Assignment(line)
    case Some((k, v)) => if k == key then Some(v) else None
    case None => None
  }

  // ----- The whole file -----

  function SectionAfter(lines: seq<string>): Section {
    if lines == [] then NoSection
    else
      var last := lines[|lines| - 1];
      if Header(last, "[interface]") then InInterface
      else if Header(last, "[peer]") then InPeer
      else SectionAfter(lines[..|lines| - 1])
  }

  /** The lines under any interface header. */
  function InterfaceLines(lines: seq<string>): seq<string> {
    if lines == [] then []
    else
      var first := lines[..|lines| - 1];
      InterfaceLines(first) + (if SectionAfter(first).InInterface? then [lines[|lines| - 1]] else [])
  }

  /** For each peer header, the lines under it. */
  function PeerGroups(lines: seq<string>): (groups: seq<seq<string>>)
    ensures SectionAfter(lines).InPeer? ==> groups != []
  {
    if lines == [] then []
    else
      var first, last := lines[..|lines| - 1], lines[|lines| - 1];
      var groups := PeerGroups(first);
      if Header(last, "[peer]") then groups + [[]]
      else if SectionAfter(first).InPeer? then groups[..|groups| - 1] + [groups[|groups| - 1] + [last]]
      else groups
  }

  function LastText(lines: seq<string>, key: string): string {
    if lines == [] then ""
    else
      match ValueFor(lines[|lines| - 1], key)
      case Some(v) => v
      case None => LastText(lines[..|lines| - 1], key)
  }

  /** The last value that is a number; others are passed over. */
  function LastInt(lines: seq<string>, key: string): int {
    if lines == [] then 0
    else
      match ValueFor(lines[|lines| - 1], key)
      case None => LastInt(lines[..|lines| - 1], key)
      case Some(v) => NumberOr(v, LastInt(lines[..|lines| - 1], key))
  }

  function PeerFrom(lines: seq<string>): ImportedPeer {
    ImportedPeer(
      LastText(lines, "publickey"), LastText(lines, "presharedkey"), LastText(lines, "allowedips"),
      LastText(lines, "endpoint"), LastInt(lines, "persistentkeepalive"))
  }

  function PeersFrom(groups: seq<seq<string>>): (ps: seq<ImportedPeer>)
    ensures |ps| == |groups|
  {
    seq(|groups|, i requires 0 <= i < |groups| => PeerFrom(groups[i]))
  }

  function Meaning(lines: seq<string>): Config {
    var own := InterfaceLines(lines);
    Config(
      LastText(own, "privatekey"), LastText(own, "address"), LastInt(own, "listenport"), LastText(own, "dns"),
      LastInt(own, "mtu"), PeersFrom(PeerGroups(lines)))
  }

  // ----- Trimming -----

  lemma TrimPadded(a: string, s: string, d: string)
    requires Spaces(a) && Spaces(d) && Unspaced(s)
    ensures TrimSpace(a + s + d) == s
  {
    var x := a + s + d;
    if s == "" {
      StripAt(x, |x|, |x|, IsSpace);
    } else {
      assert x[|a|] == s[0] && x[|a| + |s| - 1] == s[|s| - 1];
      StripAt(x, |a|, |a| + |s|, IsSpace);
      assert x[|a|..|a| + |s|] == s;
    }
  }

  lemma {:induction false} LeftEnd(s: string) returns (j: nat)
    ensures j <= |s| && Spaces(s[..j]) && (j < |s| ==> !IsSpace(s[j]))
  {
    j := 0;
    while j < |s| && IsSpace(s[j])
      invariant j <= |s| && Spaces(s[..j])
    {
      j := j + 1;
    }
  }

  lemma RightEnd(s: string, j: nat) returns (k: nat)
    requires j <= |s| && (j < |s| ==> !IsSpace(s[j]))
    ensures j <= k <= |s| && Spaces(s[k..]) && (k > j ==> !IsSpace(s[k - 1]))
  {
    k := |s|;
    while k > j && IsSpace(s[k - 1])
      invariant j <= k <= |s| && Spaces(s[k..])
    {
      k := k - 1;
    }
  }

  /** Every text is its trimmed core between white space. */
  lemma TrimParts(s: string) returns (a: string, d: string)
    ensures Spaces(a) && Spaces(d) && Unspaced(TrimSpace(s)) && s == a + TrimSpace(s) + d
  {
    var j := LeftEnd(s);
    var k := RightEnd(s, j);
    a, d := s[..j], s[k..];
    StripAt(s, j, k, IsSpace);
    assert s == a + s[j..k] + d;
  }

  lemma TrimAround(a: string, s: string, d: string)
    requires Spaces(a) && Spaces(d)
    ensures TrimSpace(a + s + d) == TrimSpace(s)
  {
    hide TrimSpace, Unspaced;
    var b, c := TrimParts(s);
    var t := TrimSpace(s);
    assert a + s + d == (a + b) + t + (c + d);
    TrimPadded(a + b, t, c + d);
  }

  lemma LowerTrims(s: string)
    ensures TrimSpace(Lower(s)) == Lower(TrimSpace(s))
  {
    hide TrimSpace, LowerChar, IsSpace;
    var a, d := TrimParts(s);
    var t := TrimSpace(s);
    assert Lower(s) == Lower(a) + Lower(t) + Lower(d);
    forall c
      ensures IsSpace(LowerChar(c)) <==> IsSpace(c)
    {
      LowerSpace(c);
    }
    TrimPadded(Lower(a), Lower(t), Lower(d));
  }

  lemma LowerSpace(c: char)
    ensures IsSpace(LowerChar(c)) <==> IsSpace(c)
    ensures LowerChar(c) == '=' <==> c == '='
  {
  }

  lemma DropCRTrims(line: string)
    ensures TrimSpace(DropCR(line)) == TrimSpace(line)
  {
    hide TrimSpace;
    var s := DropCR(line);
    if s != line {
      assert line == "" + s + ['\r'];
      TrimAround("", s, ['\r']);
    }
  }

  // ----- One step of the parser -----

  lemma CutPadded(a: string, x: string, y: string, d: string)
    requires Spaces(a) && Spaces(d) && '=' !in x
    ensures Assignment((a + x) + ['='] + (y + d)) == Some((Lower(TrimSpace(x)), TrimSpace(y)))
  {
    hide TrimSpace, Lower, IndexOf;
    var line := (a + x) + ['='] + (y + d);
    assert '=' !in a + x;
    IndexOfAt(a + x, '=', y + d);
    assert line[..|a + x|] == a + x && line[|a + x| + 1..] == y + d;
    assert a + x + "" == a + x && "" + y + d == y + d;
    TrimAround(a, x, "");
    TrimAround("", y, d);
  }

  lemma NoCut(a: string, t: string, d: string)
    requires Spaces(a) && Spaces(d) && '=' !in t
    ensures Assignment(a + t + d).None?
  {
    hide TrimSpace, Lower, IndexOf;
    assert '=' !in a + t + d;
  }

  lemma CutTrimmed(line: string)
    ensures var t := TrimSpace(line);
            var i := IndexOf(t, '=');
            Assignment(line) == if i == |t| then None else Some((TrimSpace(Lower(t[..i])), TrimSpace(t[i + 1..])))
  {
    hide TrimSpace, Lower, IndexOf, Assignment, Spaces;
    var a, d := TrimParts(line);
    var t := TrimSpace(line);
    var i := IndexOf(t, '=');
    if i == |t| {
      NoCut(a, t, d);
    } else {
      CutAt(t, '=');
      Regrouped(a, t[..i], t[i + 1..], d);
      CutPadded(a, t[..i], t[i + 1..], d);
      LowerTrims(t[..i]);
    }
  }

  lemma Regrouped(a: string, x: string, y: string, d: string)
    ensures a + (x + ['='] + y) + d == (a + x) + ['='] + (y + d)
  {
  }

  lemma HeaderHasNoValue(line: string, name: string)
    requires Header(line, name) && '=' !in name
    ensures Assignment(line).None?
  {
    hide TrimSpace, LowerChar;
    CutTrimmed(line);
    var t := TrimSpace(line);
    forall i | 0 <= i < |t|
      ensures t[i] != '='
    {
      LowerSpace(t[i]);
      assert Lower(t)[i] in name;
    }
  }

  lemma CommentHasNoKey(line: string, key: string, value: string)
    requires var t := TrimSpace(line); t != "" && (t[0] == '#' || t[0] == ';')
    requires Assignment(line) == Some((key, value))
    ensures key != "" && (key[0] == '#' || key[0] == ';')
  {
    hide TrimSpace;
    CutTrimmed(line);
    var t := TrimSpace(line);
    var i := IndexOf(t, '=');
    assert i > 0;
    LowerTrims(t[..i]);
    Gen.KeepsFirst(t[..i]);
  }

  lemma UnknownKey(st: Parser, key: string, value: string)
    requires key == "" || key[0] == '#' || key[0] == ';'
    ensures SetKey(st, key, value) == st
  {
  }

  /** Comments need no rule of their own: no key starts with their sign. */
  lemma StepIs(st: Parser, line: string)
    ensures StepLine(st, line) ==
            if Header(line, "[interface]") then st.(section := InInterface)
            else if Header(line, "[peer]") then Parser(InPeer, Some(NoPeer), st.cfg.(peers := Collected(st)))
            else
              match Assignment(line)
              case None => st
              case Some((k, v)) => SetKey(st, k, v)
  {
    hide TrimSpace, SetKey, IndexOf, Collected, DropCR, Assignment, Lower;
    var t := TrimSpace(line);
    DropCRTrims(line);
    CutTrimmed(line);
    if t == "" {
      EmptyLower();
    } else if t[0] == '#' || t[0] == ';' {
      SignLower(t);
      if Assignment(line).Some? {
        CommentHasNoKey(line, Assignment(line).value.0, Assignment(line).value.1);
        UnknownKey(st, Assignment(line).value.0, Assignment(line).value.1);
      }
    }
  }

  lemma EmptyLower()
    ensures Lower("") == ""
  {
  }

  lemma SignLower(t: string)
    requires t != "" && (t[0] == '#' || t[0] == ';')
    ensures Lower(t) != "[interface]" && Lower(t) != "[peer]"
  {
    assert Lower(t)[0] == t[0];
  }

  // ----- The parser computes the meaning -----

  lemma LastTextSnoc(lines: seq<string>, line: string, key: string)
    ensures LastText(lines + [line], key) ==
            match ValueFor(line, key)
            case Some(v) => v
            case None => LastText(lines, key)
    ensures LastInt(lines + [line], key) ==
            match ValueFor(line, key)
            case Some(v) => NumberOr(v, LastInt(lines, key))
            case None => LastInt(lines, key)
  {
    hide ValueFor;
    assert (lines + [line])[..|lines|] == lines;
  }

  lemma PeerFromSnoc(lines: seq<string>, line: string)
    ensures PeerFrom(lines + [line]) ==
            match Assignment(line)
            case None => PeerFrom(lines)
            case Some((k, v)) => SetPeer(PeerFrom(lines), k, v)
  {
    hide LastText, LastInt, Assignment, NumberOr;
    LastTextSnoc(lines, line, "publickey");
    LastTextSnoc(lines, line, "presharedkey");
    LastTextSnoc(lines, line, "allowedips");
    LastTextSnoc(lines, line, "endpoint");
    LastTextSnoc(lines, line, "persistentkeepalive");
  }

  /** The fields of an interface section, with no peers. */
  function OwnFrom(lines: seq<string>): Config {
    Config(
      LastText(lines, "privatekey"), LastText(lines, "address"), LastInt(lines, "listenport"),
      LastText(lines, "dns"), LastInt(lines, "mtu"), [])
  }

  lemma OwnFromSnoc(lines: seq<string>, line: string)
    ensures OwnFrom(lines + [line]) ==
            match Assignment(line)
            case None => OwnFrom(lines)
            case Some((k, v)) => SetInterface(OwnFrom(lines), k, v)
  {
    hide LastText, LastInt, Assignment, NumberOr;
    LastTextSnoc(lines, line, "privatekey");
    LastTextSnoc(lines, line, "address");
    LastTextSnoc(lines, line, "listenport");
    LastTextSnoc(lines, line, "dns");
    LastTextSnoc(lines, line, "mtu");
  }

  /** The parser's state after some lines, in terms of what they mean. */
  ghost predicate Tracks(st: Parser, lines: seq<string>) {
    && st.section == SectionAfter(lines)
    && st.cfg.(peers := []) == OwnFrom(InterfaceLines(lines))
    && Collected(st) == PeersFrom(PeerGroups(lines))
    && (st.current.Some? <==> PeerGroups(lines) != [])
  }

  lemma SnocParts(lines: seq<string>, line: string)
    ensures var all := lines + [line]; all[..|all| - 1] == lines && all[|all| - 1] == line
  {
  }

  lemma LinesSnoc(lines: seq<string>, line: string)
    ensures SectionAfter(lines + [line]) ==
            if Header(line, "[interface]") then InInterface
            else if Header(line, "[peer]") then InPeer
            else SectionAfter(lines)
    ensures InterfaceLines(lines + [line])
         == if SectionAfter(lines).InInterface? then InterfaceLines(lines) + [line] else InterfaceLines(lines)
    ensures PeerGroups(lines + [line]) ==
            var groups := PeerGroups(lines);
            if Header(line, "[peer]") then groups + [[]]
            else if SectionAfter(lines).InPeer? then groups[..|groups| - 1] + [groups[|groups| - 1] + [line]]
            else groups
  {
    hide Header;
    SnocParts(lines, line);
  }

  lemma PeersFromSnoc(groups: seq<seq<string>>, g: seq<string>)
    ensures PeersFrom(groups + [g]) == PeersFrom(groups) + [PeerFrom(g)]
  {
  }

  lemma SetInterfaceKeepsPeers(cfg: Config, key: string, value: string)
    ensures SetInterface(cfg, key, value).(peers := []) == SetInterface(cfg.(peers := []), key, value)
    ensures SetInterface(cfg, key, value).peers == cfg.peers
  {
    hide NumberOr;
  }

  lemma TrackHeader(st: Parser, lines: seq<string>, line: string)
    requires Tracks(st, lines) && (Header(line, "[interface]") || Header(line, "[peer]"))
    ensures Tracks(StepLine(st, line), lines + [line])
  {
    hide Header, StepLine, PeerFrom, OwnFrom, InterfaceLines, PeerGroups, SectionAfter;
    StepIs(st, line);
    LinesSnoc(lines, line);
    HeaderAssignsNothing(line);
    OwnFromSnoc(InterfaceLines(lines), line);
    var groups := PeerGroups(lines);
    PeersFromSnoc(groups, []);
    EmptyPeer();
    if !Header(line, "[peer]") && SectionAfter(lines).InPeer? {
      SamePeer(groups, line);
    }
    NotBoth(line);
  }

  lemma NotBoth(line: string)
    ensures !(Header(line, "[interface]") && Header(line, "[peer]"))
  {
  }

  lemma HeaderAssignsNothing(line: string)
    requires Header(line, "[interface]") || Header(line, "[peer]")
    ensures Assignment(line).None?
  {
    hide Header, Assignment;
    if Header(line, "[interface]") {
      HeaderHasNoValue(line, "[interface]");
    } else {
      HeaderHasNoValue(line, "[peer]");
    }
  }

  lemma EmptyPeer()
    ensures PeerFrom([]) == NoPeer
  {
  }

  /** The last group with one more line. */
  lemma LastGroup(groups: seq<seq<string>>, line: string)
    requires groups != []
    ensures var n := |groups| - 1;
            var more := groups[..n] + [groups[n] + [line]];
            && PeersFrom(groups) == PeersFrom(groups[..n]) + [PeerFrom(groups[n])]
            && PeersFrom(more) == PeersFrom(groups[..n]) + [PeerFrom(groups[n] + [line])]
  {
    hide PeerFrom, PeersFrom;
    var n := |groups| - 1;
    assert groups == groups[..n] + [groups[n]];
    PeersFromSnoc(groups[..n], groups[n]);
    PeersFromSnoc(groups[..n], groups[n] + [line]);
  }

  lemma SamePeer(groups: seq<seq<string>>, line: string)
    requires groups != [] && Assignment(line).None?
    ensures PeersFrom(groups[..|groups| - 1] + [groups[|groups| - 1] + [line]]) == PeersFrom(groups)
  {
    hide PeerFrom, PeersFrom, Assignment;
    LastGroup(groups, line);
    PeerFromSnoc(groups[|groups| - 1], line);
  }

  lemma TrackInterface(st: Parser, lines: seq<string>, line: string)
    requires Tracks(st, lines) && !Header(line, "[interface]") && !Header(line, "[peer]")
    requires SectionAfter(lines).InInterface?
    ensures Tracks(StepLine(st, line), lines + [line])
  {
    hide Header, StepLine, PeerFrom, OwnFrom, InterfaceLines, PeerGroups, SectionAfter, Assignment, SetInterface;
    StepIs(st, line);
    LinesSnoc(lines, line);
    OwnFromSnoc(InterfaceLines(lines), line);
    match Assignment(line)
    case None =>
    case Some((k, v)) => SetInterfaceKeepsPeers(st.cfg, k, v);
  }

  lemma TrackPeer(st: Parser, lines: seq<string>, line: string)
    requires Tracks(st, lines) && !Header(line, "[interface]") && !Header(line, "[peer]")
    requires SectionAfter(lines).InPeer?
    ensures Tracks(StepLine(st, line), lines + [line])
  {
    hide Header, StepLine, PeerFrom, PeersFrom, OwnFrom, InterfaceLines, PeerGroups, SectionAfter, Assignment, SetPeer;
    StepIs(st, line);
    LinesSnoc(lines, line);
    var groups := PeerGroups(lines);
    LastGroup(groups, line);
    PeerFromSnoc(groups[|groups| - 1], line);
    SameLast(st.cfg.peers, st.current.value, PeersFrom(groups[..|groups| - 1]), PeerFrom(groups[|groups| - 1]));
  }

  lemma SameLast(a: seq<ImportedPeer>, x: ImportedPeer, b: seq<ImportedPeer>, y: ImportedPeer)
    requires a + [x] == b + [y]
    ensures a == b && x == y
  {
    assert (a + [x])[..|a|] == a && (b + [y])[..|b|] == b;
    assert (a + [x])[|a|] == x && (b + [y])[|b|] == y;
  }

  lemma TrackOutside(st: Parser, lines: seq<string>, line: string)
    requires Tracks(st, lines) && !Header(line, "[interface]") && !Header(line, "[peer]")
    requires SectionAfter(lines).NoSection?
    ensures Tracks(StepLine(st, line), lines + [line])
  {
    hide Header, StepLine, PeerFrom, PeersFrom, OwnFrom, InterfaceLines, PeerGroups, SectionAfter, Assignment;
    StepIs(st, line);
    LinesSnoc(lines, line);
  }

  lemma TrackStart()
    ensures Tracks(Start, [])
  {
    assert PeersFrom([]) == [];
  }

  lemma {:induction false} ParserTracks(lines: seq<string>)
    ensures Tracks(ParseLines(Start, lines), lines)
  {
    hide Tracks, Header, StepLine;
    if lines == [] {
      TrackStart();
    } else {
      var n := |lines| - 1;
      var first, line := lines[..n], lines[n];
      var st := ParseLines(Start, first);
      ParserTracks(first);
      assert lines == first + [line];
      Gen.ReadConcat(Start, first, [line]);
      Gen.ReadOne(st, line);
      if Header(line, "[interface]") || Header(line, "[peer]") {
        TrackHeader(st, first, line);
      } else {
        match SectionAfter(first)
        case NoSection => TrackOutside(st, first, line);
        case InInterface => TrackInterface(st, first, line);
        case InPeer => TrackPeer(st, first, line);
      }
    }
  }

  /** Whatever the text, the parser's answer is its meaning: too long a line fails it, then a
      missing private key. */
  lemma ParseIsMeaning(text: string)
    ensures Parse(text) ==
            var lines := RawLines(text);
            if exists i :: 0 <= i < |lines| && ByteLen(lines[i]) > 65535 then Err(LineTooLong)
            else if LastText(InterfaceLines(lines), "privatekey") == "" then Err(NoPrivateKey)
            else Ok(Meaning(lines))
  {
    hide RawLines, ParseLines, InterfaceLines, PeerGroups, SectionAfter, LastText, LastInt, PeersFrom, Collected;
    var lines := RawLines(text);
    ParserTracks(lines);
    var st := ParseLines(Start, lines);
    assert st.cfg.privateKey == st.cfg.(peers := []).privateKey;
    assert st.cfg.(peers := Collected(st)) == st.cfg.(peers := []).(peers := Collected(st));
  }

  // ----- Which lines give a key its value -----

  /** White space, the key in any case, white space, '=', white space, the value, white space. */
  ghost predicate Gives(line: string, key: string, value: string) {
    exists a, k, b, c, d ::
      Padded(line, a, k, b, c, value, d) && Lower(k) == key
  }

  predicate Padded(line: string, a: string, k: string, b: string, c: string, v: string, d: string) {
    && Spaces(a) && Spaces(b) && Spaces(c) && Spaces(d) && Unspaced(k) && Unspaced(v) && '=' !in k
    && line == (a + k + b) + "=" + (c + v + d)
  }

  lemma ValueExactly(line: string, key: string, value: string)
    ensures ValueFor(line, key) == Some(value) <==> Gives(line, key, value)
  {
    hide TrimSpace, Lower, IndexOf, Unspaced;
    if ValueFor(line, key) == Some(value) {
      var i := IndexOf(line, '=');
      var a, b := TrimParts(line[..i]);
      var c, d := TrimParts(line[i + 1..]);
      assert line == line[..i] + "=" + line[i + 1..];
      assert '=' !in TrimSpace(line[..i]) by {
        assert forall x :: x in TrimSpace(line[..i]) ==> x in line[..i];
      }
      assert Padded(line, a, TrimSpace(line[..i]), b, c, value, d);
    }
    if Gives(line, key, value) {
      var a, k, b, c, d :| Padded(line, a, k, b, c, value, d) && Lower(k) == key;
      ReadPadded(line, a, k, b, c, value, d);
    }
  }

  lemma ReadPadded(line: string, a: string, k: string, b: string, c: string, v: string, d: string)
    requires Padded(line, a, k, b, c, v, d)
    ensures Assignment(line) == Some((Lower(k), v))
  {
    hide TrimSpace, Lower, IndexOf, Unspaced;
    var before, after := a + k + b, c + v + d;
    assert line == before + ['='] + after;
    assert '=' !in before;
    IndexOfAt(before, '=', after);
    assert line[..|before|] == before && line[|before| + 1..] == after;
    TrimPadded(a, k, b);
    TrimPadded(c, v, d);
  }

  /** A header is its name in any case, alone on the line. */
  lemma HeaderExactly(line: string, name: string)
    ensures Header(line, name) <==>
            exists a, w, d :: Spaces(a) && Spaces(d) && Unspaced(w) && line == a + w + d && Lower(w) == name
  {
    hide TrimSpace, Lower, Unspaced;
    if Header(line, name) {
      var a, d := TrimParts(line);
    }
    if a, w, d :| Spaces(a) && Spaces(d) && Unspaced(w) && line == a + w + d && Lower(w) == name {
      TrimPadded(a, w, d);
    }
  }

  /** Which characters read as a lower-case letter. */
  lemma LowerExactly(c: char, x: char)
    requires 'a' <= x <= 'z'
    ensures LowerChar(c) == x <==>
            || c == x || c as int == x as int - 32 || (x == 'k' && c == '\U{212A}') || (x == 'i' && c == '\U{130}')
  {
  }

  // ----- One line, key by key -----

  lemma GivenIsRead(line: string, key: string, value: string)
    requires Gives(line, key, value) && key != "[interface]" && key != "[peer]"
    ensures Assignment(line) == Some((key, value)) && !Header(line, "[interface]") && !Header(line, "[peer]")
  {
    hide Header, Gives, Assignment;
    GivesAssigns(line, key, value);
    if Header(line, "[interface]") || Header(line, "[peer]") {
      HeaderAssignsNothing(line);
    }
  }

  lemma GivesAssigns(line: string, key: string, value: string)
    requires Gives(line, key, value)
    ensures Assignment(line) == Some((key, value))
  {
    hide Gives;
    ValueExactly(line, key, value);
  }

  function Given(given: bool, value: string, unset: string): string {
    if given then value else unset
  }

  function GivenInt(given: bool, value: string, unset: int): int {
    if given && Atoi(value).Some? then Atoi(value).value else unset
  }

  /** In an interface section each of the five keys sets its own field and no other. */
  lemma InterfaceLine(st: Parser, line: string, key: string, value: string)
    requires st.section.InInterface? && Gives(line, key, value) && key != "[interface]" && key != "[peer]"
    ensures var was, cfg := st.cfg, StepLine(st, line).cfg;
            && cfg.privateKey == Given(key == "privatekey", value, was.privateKey)
            && cfg.address == Given(key == "address", value, was.address)
            && cfg.dns == Given(key == "dns", value, was.dns)
            && cfg.listenPort == GivenInt(key == "listenport", value, was.listenPort)
            && cfg.mtu == GivenInt(key == "mtu", value, was.mtu)
            && StepLine(st, line) == st.(cfg := cfg) && cfg.peers == was.peers
  {
    hide Gives, StepLine, Atoi, Header, Assignment;
    GivenIsRead(line, key, value);
    StepIs(st, line);
  }

  /** Likewise in the section of an open peer. */
  lemma PeerLine(st: Parser, line: string, key: string, value: string)
    requires st.section.InPeer? && st.current.Some?
    requires Gives(line, key, value) && key != "[interface]" && key != "[peer]"
    ensures StepLine(st, line).current.Some?
    ensures var was, p := st.current.value, StepLine(st, line).current.value;
            && p.publicKey == Given(key == "publickey", value, was.publicKey)
            && p.presharedKey == Given(key == "presharedkey", value, was.presharedKey)
            && p.allowedIPs == Given(key == "allowedips", value, was.allowedIPs)
            && p.endpoint == Given(key == "endpoint", value, was.endpoint)
            && p.keepalive == GivenInt(key == "persistentkeepalive", value, was.keepalive)
            && StepLine(st, line) == st.(current := Some(p))
  {
    hide Gives, StepLine, Atoi, Header, Assignment;
    GivenIsRead(line, key, value);
    StepIs(st, line);
  }

  /** A comment, or text without '=' that is no header, changes nothing. */
  lemma IdleLine(st: Parser, line: string)
    requires var t := TrimSpace(line);
             || t == "" || t[0] == '#' || t[0] == ';'
             || ('=' !in line && !Header(line, "[interface]") && !Header(line, "[peer]"))
    ensures StepLine(st, line) == st
  {
    hide TrimSpace, Lower;
    DropCRTrims(line);
    StepIs(st, line);
  }

  // ----- Lines of a text -----

  function Ended(text: string): string {
    if text == "" || text[|text| - 1] == '\n' then text else text + ['\n']
  }

  lemma UnlinesFirst(line: string, rest: seq<string>)
    ensures Unlines([line] + rest) == line + ['\n'] + Unlines(rest)
  {
    assert ([line] + rest)[1..] == rest;
  }

  lemma EndedFirst(line: string, rest: string)
    ensures Ended(line + ['\n'] + rest) == line + ['\n'] + Ended(rest)
  {
    var text := line + ['\n'] + rest;
    if rest == "" {
      assert text[|text| - 1] == '\n' && text == line + ['\n'];
    } else {
      assert text[|text| - 1] == rest[|rest| - 1];
      assert text + ['\n'] == line + ['\n'] + (rest + ['\n']);
    }
  }

  /** The lines and the text determine each other: a newline ends every line, but may be missing
      after the last one. */
  lemma {:induction false} LinesOfText(text: string)
    ensures forall i :: 0 <= i < |RawLines(text)| ==> OneLine(RawLines(text)[i])
    ensures Unlines(RawLines(text)) == Ended(text)
    decreases |text|
  {
    hide IndexOf, RawLines, Unlines, Ended, OneLine;
    if text == "" {
      NoLine();
    } else {
      var i := IndexOf(text, '\n');
      RawLinesStep(text);
      BeforeBreak(text);
      if i == |text| {
        OnlyLine(text);
      } else {
        LinesOfText(text[i + 1..]);
        UnlinesFirst(text[..i], RawLines(text[i + 1..]));
        EndedFirst(text[..i], text[i + 1..]);
      }
    }
  }

  lemma NoLine()
    ensures RawLines("") == [] && Unlines([]) == Ended("")
  {
  }

  lemma BeforeBreak(text: string)
    ensures var i := IndexOf(text, '\n');
            OneLine(text[..i]) && (i < |text| ==> text == text[..i] + ['\n'] + text[i + 1..])
  {
    hide IndexOf;
    var i := IndexOf(text, '\n');
    assert forall c :: c in text[..i] ==> c != '\n';
    if i < |text| {
      CutAt(text, '\n');
    }
  }

  lemma OnlyLine(text: string)
    requires text != "" && OneLine(text[..|text|])
    ensures text[..|text|] == text && Unlines([text] + []) == Ended(text)
  {
    assert [text] + [] == [text] && [text][1..] == [];
    assert text[|text| - 1] in text;
  }

  // ----- Numbers and lengths -----

  /** A sign or none, and digits. */
  predicate Spelled(s: string, sign: string, digits: string, n: int) {
    && s == sign + digits && digits != "" && AllDigits(digits)
    && ((sign == "-" && n == -(Number(digits) as int)) || ((sign == "" || sign == "+") && n == Number(digits)))
  }

  lemma SpelledIsRead(s: string, sign: string, digits: string, n: int)
    requires Spelled(s, sign, digits, n)
    ensures Atoi(s) == if Int64(n) then Some(n) else None
  {
    hide Number;
    assert IsDigit(digits[0]);
    if sign == "" {
      assert s == digits;
    } else {
      assert s[0] == sign[0] && s[1..] == digits;
    }
  }

  /** A number of 64 bits so spelled is read, and nothing else. */
  lemma AtoiExactly(s: string, n: int)
    ensures Atoi(s) == Some(n) <==>
            && -0x8000_0000_0000_0000 <= n <= 0x7FFF_FFFF_FFFF_FFFF
            && exists sign, digits :: Spelled(s, sign, digits, n)
  {
    if Atoi(s) == Some(n) {
      var sign := if s[0] == '+' || s[0] == '-' then s[..1] else "";
      assert Spelled(s, sign, s[|sign|..], n);
    }
    hide Atoi, Spelled;
    if sign, digits :| Spelled(s, sign, digits, n) {
      SpelledIsRead(s, sign, digits, n);
    }
  }

  /** Bits of a character that fit n bytes, by section 3 of RFC 3629. */
  function Payload(n: nat): nat {
    if n == 1 then 7 else if n == 2 then 11 else if n == 3 then 16 else 21
  }

  lemma Utf8Exactly(c: char, n: nat)
    requires 1 <= n <= 4
    ensures 1 <= Utf8Len(c) <= 4 && (Utf8Len(c) <= n <==> (c as int) < Pow2(Payload(n)))
  {
    assert Pow2(7) == 0x80;
    Pow2Add(7, 4);
    Pow2Add(8, 8);
    Pow2Add(16, 5);
    assert Pow2(4) == 16 && Pow2(5) == 32 && Pow2(8) == 0x100;
  }

  lemma {:induction false} ByteLenConcat(s: string, t: string)
    ensures ByteLen(s + t) == ByteLen(s) + ByteLen(t)
    decreases |t|
  {
    if t == "" {
      assert s + t == s;
    } else {
      var n := |t| - 1;
      ByteLenConcat(s, t[..n]);
      assert (s + t)[..|s| + n] == s + t[..n];
    }
  }
}
