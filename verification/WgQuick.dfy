/** wg-quick configuration files: the generators, the parser, and how they undo each other. */
module WgQuick {
  import opened Wrappers
  import opened Text

  // ----- Characters -----

  /** Lower case of the characters that can spell a section or key name: ASCII letters, and
      the two others (Kelvin sign, dotted I) whose lower case is an ASCII letter. */
  function LowerChar(c: char): char {
    if 'A' <= c <= 'Z' then c + 32 as char
    else if c == '\U{212A}' then 'k'
    else if c == '\U{130}' then 'i'
    else c
  }

  function Lower(s: string): (r: string)
    ensures |r| == |s|
  {
    seq(|s|, i requires 0 <= i < |s| => LowerChar(s[i]))
  }

  function Utf8Len(c: char): nat {
    if (c as int) < 0x80 then 1 else if (c as int) < 0x800 then 2 else if (c as int) < 0x1_0000 then 3 else 4
  }

  function ByteLen(s: string): nat {
    if s == "" then 0 else ByteLen(s[..|s| - 1]) + Utf8Len(s[|s| - 1])
  }

  /** strconv.Atoi: an optional sign and digits, within 64 bits. */
  function Atoi(s: string): Option<int> {
    var digits := if s != "" && (s[0] == '+' || s[0] == '-') then s[1..] else s;
    if digits == "" || !AllDigits(digits) then None
    else
      var n := if s[0] == '-' then -(Number(digits) as int) else Number(digits);
      if Int64(n) then Some(n) else None
  }

  predicate Int64(n: int) {
    -0x8000_0000_0000_0000 <= n < 0x8000_0000_0000_0000
  }

  lemma AtoiPrintInt(n: int)
    requires Int64(n)
    ensures Atoi(PrintInt(n)) == Some(n)
  {
    hide Decimal, Number;
    if n < 0 {
      AtoiNegative(n);
    } else {
      DecimalRoundTrip(n);
      assert IsDigit(PrintInt(n)[0]);
    }
  }

  lemma AtoiNegative(n: int)
    requires n < 0 && Int64(n)
    ensures Atoi(PrintInt(n)) == Some(n)
  {
    hide Decimal, Number;
    DecimalRoundTrip(-n);
    assert PrintInt(n)[0] == '-' && PrintInt(n)[1..] == Decimal(-n);
  }

  // ----- Lines -----

  const MaxLine: nat := 65536

  /** Text up to each newline; text after the last one is a line unless empty. */
  function RawLines(text: string): seq<string>
    decreases |text|
  {
    if text == "" then []
    else
      var i := IndexOf(text, '\n');
      if i == |text| then [text] else [text[..i]] + RawLines(text[i + 1..])
  }

  function Unlines(lines: seq<string>): string {
    if lines == [] then "" else lines[0] + ['\n'] + Unlines(lines[1..])
  }

  predicate OneLine(s: string) {
    '\n' !in s
  }

  lemma FirstLine(line: string, rest: string)
    requires OneLine(line)
    ensures RawLines(line + ['\n'] + rest) == [line] + RawLines(rest)
  {
    var text := line + ['\n'] + rest;
    IndexOfAt(line, '\n', rest);
    assert text[..|line|] == line && text[|line| + 1..] == rest;
  }

  lemma {:induction false} LinesRoundTrip(lines: seq<string>)
    requires forall i :: 0 <= i < |lines| ==> OneLine(lines[i])
    ensures RawLines(Unlines(lines)) == lines
  {
    if lines == [] {
      NoRawLines();
    } else {
      hide RawLines, OneLine;
      LinesRoundTrip(lines[1..]);
      FirstLine(lines[0], Unlines(lines[1..]));
    }
  }

  /** The scanner gives up on a line that does not fit its buffer. */
  predicate Fits(line: string) {
    ByteLen(line) < MaxLine
  }

  function DropCR(line: string): string {
    if line != "" && line[|line| - 1] == '\r' then line[..|line| - 1] else line
  }

  // ----- Parsing -----

  datatype ImportedPeer = ImportedPeer(publicKey: string, presharedKey: string, allowedIPs: string, endpoint: string,
                                       keepalive: int)

  datatype Config = Config(privateKey: string, address: string, listenPort: int, dns: string, mtu: int,
                           peers: seq<ImportedPeer>)

  datatype Section = NoSection | InInterface | InPeer

  datatype Parser = Parser(section: Section, current: Option<ImportedPeer>, cfg: Config)

  datatype Error = LineTooLong | NoPrivateKey

  const NoPeer := ImportedPeer("", "", "", "", 0)
  const Start := Parser(NoSection, None, Config("", "", 0, "", 0, []))

  /** Peers finished so far, the open one included. */
  function Collected(st: Parser): seq<ImportedPeer> {
    st.cfg.peers + (if st.current.Some? then [st.current.value] else [])
  }

  function NumberOr(value: string, unset: int): int {
    match Atoi(value)
    case Some(n) => n
    case None => unset
  }

  function SetInterface(cfg: Config, key: string, value: string): Config {
    if key == "privatekey" then cfg.(privateKey := value)
    else if key == "address" then cfg.(address := value)
    else if key == "listenport" then cfg.(listenPort := NumberOr(value, cfg.listenPort))
    else if key == "dns" then cfg.(dns := value)
    else if key == "mtu" then cfg.(mtu := NumberOr(value, cfg.mtu))
    else cfg
  }

  function SetPeer(p: ImportedPeer, key: string, value: string): ImportedPeer {
    if key == "publickey" then p.(publicKey := value)
    else if key == "presharedkey" then p.(presharedKey := value)
    else if key == "allowedips" then p.(allowedIPs := value)
    else if key == "endpoint" then p.(endpoint := value)
    else if key == "persistentkeepalive" then p.(keepalive := NumberOr(value, p.keepalive))
    else p
  }

  function SetKey(st: Parser, key: string, value: string): Parser {
    match st.section
    case NoSection => st
    case InInterface => st.(cfg := SetInterface(st.cfg, key, value))
    case InPeer => if st.current.None? then st else st.(current := Some(SetPeer(st.current.value, key, value)))
  }

  /** One trimmed line. */
  function StepTrimmed(st: Parser, line: string): Parser {
    if line == "" || line[0] == '#' || line[0] == ';' then st
    else if Lower(line) == "[interface]" then st.(section := InInterface)
    else if Lower(line) == "[peer]" then Parser(InPeer, Some(NoPeer), st.cfg.(peers := Collected(st)))
    else
      var i := IndexOf(line, '=');
      if i == |line| then st
      else SetKey(st, TrimSpace(Lower(line[..i])), TrimSpace(line[i + 1..]))
  }

  function StepLine(st: Parser, raw: string): Parser {
    StepTrimmed(st, TrimSpace(DropCR(raw)))
  }

  function ParseLines(st: Parser, lines: seq<string>): Parser
    decreases |lines|
  {
    if lines == [] then st else ParseLines(StepLine(st, lines[0]), lines[1..])
  }

  function Finish(st: Parser): Result<Config, Error> {
    if st.cfg.privateKey == "" then Err(NoPrivateKey) else Ok(st.cfg.(peers := Collected(st)))
  }

  function Parse(text: string): Result<Config, Error> {
    if exists i :: 0 <= i < |RawLines(text)| && !Fits(RawLines(text)[i]) then Err(LineTooLong)
    else Finish(ParseLines(Start, RawLines(text)))
  }

  lemma RawLinesStep(text: string)
    requires text != ""
    ensures var i := IndexOf(text, '\n');
            RawLines(text) == [text[..i]] + (if i == |text| then [] else RawLines(text[i + 1..]))
  {
    assert text[..|text|] == text;
  }

  lemma ParseLinesFirst(st: Parser, line: string, rest: seq<string>)
    ensures ParseLines(st, [line] + rest) == ParseLines(StepLine(st, line), rest)
  {
    assert ([line] + rest)[1..] == rest;
  }

  /** The scanner loop: a section, an open peer and the configuration so far. */
  method ParseWgQuickConfig(text: string) returns (r: Result<Config, Error>)
    ensures r == Parse(text)
  {
    hide Fits, StepLine, RawLines, ParseLines, Finish;
    var st := Start;
    var rest := text;
    ghost var seen: seq<string> := [];
    NothingSeen(text);
    while rest != ""
      invariant seen + RawLines(rest) == RawLines(text)
      invariant forall i :: 0 <= i < |seen| ==> Fits(seen[i])
      invariant ParseLines(st, RawLines(rest)) == ParseLines(Start, RawLines(text))
      decreases |rest|
    {
      var i := IndexOf(rest, '\n');
      var line := rest[..i];
      var next := if i == |rest| then "" else rest[i + 1..];
      LineRead(text, seen, rest, st);
      if !Fits(line) {
        return Err(LineTooLong);
      }
      seen := seen + [line];
      st := StepLine(st, line);
      rest := next;
    }
    AllSeen(text, seen, st);
    return Finish(st);
  }

  lemma NothingSeen(text: string)
    ensures [] + RawLines(text) == RawLines(text)
  {
  }

  lemma LineRead(text: string, seen: seq<string>, rest: string, st: Parser)
    requires rest != "" && seen + RawLines(rest) == RawLines(text)
    ensures var i := IndexOf(rest, '\n');
            var next := if i == |rest| then "" else rest[i + 1..];
            && (seen + [rest[..i]]) + RawLines(next) == RawLines(text)
            && ParseLines(st, RawLines(rest)) == ParseLines(StepLine(st, rest[..i]), RawLines(next))
            && |seen| < |RawLines(text)| && RawLines(text)[|seen|] == rest[..i]
  {
    hide StepLine, ParseLines, RawLines, IndexOf;
    var i := IndexOf(rest, '\n');
    var next := if i == |rest| then "" else rest[i + 1..];
    RawLinesStep(rest);
    assert RawLines("") == [] by { NoRawLines(); }
    assert RawLines(rest) == [rest[..i]] + RawLines(next);
    ParseLinesFirst(st, rest[..i], RawLines(next));
    assert (seen + [rest[..i]]) + RawLines(next) == seen + ([rest[..i]] + RawLines(next));
  }

  lemma NoRawLines()
    ensures RawLines("") == []
  {
  }

  lemma AllSeen(text: string, seen: seq<string>, st: Parser)
    requires seen + RawLines("") == RawLines(text)
    requires ParseLines(st, RawLines("")) == ParseLines(Start, RawLines(text))
    ensures seen == RawLines(text) && ParseLines(Start, RawLines(text)) == st
  {
  }
}
