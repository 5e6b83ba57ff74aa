/** The generated wg-quick files, and that parsing one gives back what it was made from. */
module WgQuickGen {
  import opened Wrappers
  import opened Text
  import opened WgQuick

  // ----- Generators -----

  datatype ExportPeer = ExportPeer(name: string, publicKey: string, presharedKey: string, allowedIPs: string,
                                   endpoint: string, keepalive: int)

  datatype ServerParams = ServerParams(
    ifaceName: string, privateKey: string, address: string, listenPort: int, dns: string,
    natEnabled: bool, natInterface: string, peers: seq<ExportPeer>)

  datatype ClientParams = ClientParams(
    name: string, privateKey: string, address: string, dns: string,
    serverKey: string, presharedKey: string, endpoint: string, allowedIPs: string, keepalive: int)

  datatype GenError = MissingPrivateKey | MissingPort | MissingServerKey | MissingEndpoint | MissingAllowedIPs

  /** A `key = value` line. */
  function Setting(key: string, value: string): string {
    key + " = " + value
  }

  function Optional(key: string, value: string): seq<string> {
    if value == "" then [] else [Setting(key, value)]
  }

  function Keepalive(n: int): seq<string> {
    if n > 0 then [Setting("PersistentKeepalive", PrintInt(n))] else []
  }

  function Masquerade(action: string, iface: string): string {
    "iptables -t nat -" + action + " POSTROUTING -o " + iface + " -j MASQUERADE; ip6tables -t nat -" + action
      + " POSTROUTING -o " + iface + " -j MASQUERADE"
  }

  function NatLines(p: ServerParams): seq<string> {
    var iface := if p.natInterface == "" then "eth0" else p.natInterface;
    if !p.natEnabled then []
    else [Setting("PostUp", Masquerade("A", iface)), Setting("PostDown", Masquerade("D", iface))]
  }

  function PeerFields(key: string, psk: string, allowed: string, endpoint: seq<string>, keepalive: int): seq<string> {
    ["[Peer]", Setting("PublicKey", key)] + Optional("PresharedKey", psk) + [Setting("AllowedIPs", allowed)]
      + endpoint + Keepalive(keepalive)
  }

  function PeerLines(p: ExportPeer): seq<string> {
    ["", "# " + p.name]
      + PeerFields(p.publicKey, p.presharedKey, p.allowedIPs, Optional("Endpoint", p.endpoint), p.keepalive)
  }

  function AllPeerLines(ps: seq<ExportPeer>): seq<string> {
    if ps == [] then [] else AllPeerLines(ps[..|ps| - 1]) + PeerLines(ps[|ps| - 1])
  }

  /** The first lines of either file. */
  function InterfaceStart(name: string, key: string, address: string): seq<string> {
    ["# Generated by wgpilot — " + name, "[Interface]", Setting("PrivateKey", key), Setting("Address", address)]
  }

  function ServerHeader(p: ServerParams): seq<string> {
    InterfaceStart(p.ifaceName, p.privateKey, p.address) + [Setting("ListenPort", PrintInt(p.listenPort))]
      + Optional("DNS", p.dns) + NatLines(p)
  }

  function ServerLines(p: ServerParams): seq<string> {
    ServerHeader(p) + AllPeerLines(p.peers)
  }

  function ClientLines(p: ClientParams): seq<string> {
    InterfaceStart(p.name, p.privateKey, p.address)
      + Optional("DNS", p.dns) + [""]
      + PeerFields(p.serverKey, p.presharedKey, p.allowedIPs, [Setting("Endpoint", p.endpoint)], p.keepalive)
  }

  function GenerateServerConfig(p: ServerParams): Result<string, GenError> {
    if p.privateKey == "" then Err(MissingPrivateKey)
    else if p.listenPort == 0 then Err(MissingPort)
    else Ok(Unlines(ServerLines(p)))
  }

  function GenerateClientConfig(p: ClientParams): Result<string, GenError> {
    if p.privateKey == "" then Err(MissingPrivateKey)
    else if p.serverKey == "" then Err(MissingServerKey)
    else if p.endpoint == "" then Err(MissingEndpoint)
    else if p.allowedIPs == "" then Err(MissingAllowedIPs)
    else Ok(Unlines(ClientLines(p)))
  }

  /** A file is generated exactly when the fields it cannot do without are there. */
  lemma GeneratedExactly(p: ServerParams, q: ClientParams)
    ensures GenerateServerConfig(p).Ok? <==> p.privateKey != "" && p.listenPort != 0
    ensures GenerateClientConfig(q).Ok? <==> "" !in {q.privateKey, q.serverKey, q.endpoint, q.allowedIPs}
  {
    hide Unlines;
  }

  // ----- The files word for word -----

  lemma MasqueradeWords(iface: string)
    ensures Masquerade("A", iface) ==
            "iptables -t nat -A POSTROUTING -o " + iface + " -j MASQUERADE; "
            + ("ip6tables -t nat -A POSTROUTING -o " + iface + " -j MASQUERADE")
    ensures Masquerade("D", iface) ==
            "iptables -t nat -D POSTROUTING -o " + iface + " -j MASQUERADE; "
            + ("ip6tables -t nat -D POSTROUTING -o " + iface + " -j MASQUERADE")
  {
    AddWords();
    DropWords();
    MasqueradeFlat("A", iface);
    MasqueradeFlat("D", iface);
  }

  lemma AddWords()
    ensures "iptables -t nat -" + "A" + " POSTROUTING -o " == "iptables -t nat -A POSTROUTING -o "
    ensures "ip6tables -t nat -" + "A" + " POSTROUTING -o " == "ip6tables -t nat -A POSTROUTING -o "
  {
  }

  lemma DropWords()
    ensures "iptables -t nat -" + "D" + " POSTROUTING -o " == "iptables -t nat -D POSTROUTING -o "
    ensures "ip6tables -t nat -" + "D" + " POSTROUTING -o " == "ip6tables -t nat -D POSTROUTING -o "
  {
  }

  lemma MasqueradeFlat(action: string, iface: string)
    ensures Masquerade(action, iface) ==
            ("iptables -t nat -" + action + " POSTROUTING -o ") + iface + " -j MASQUERADE; "
            + (("ip6tables -t nat -" + action + " POSTROUTING -o ") + iface + " -j MASQUERADE")
  {
    assert " -j MASQUERADE; ip6tables -t nat -" == " -j MASQUERADE; " + "ip6tables -t nat -";
  }

  lemma OnePeerLines(q: ExportPeer)
    ensures AllPeerLines([q]) == PeerLines(q)
  {
    hide PeerLines;
    assert AllPeerLines([]) == [] && [q][..0] == [];
  }

  /** A server file with everything in it ... */
  lemma FullServer(p: ServerParams, q: ExportPeer)
    requires p.dns != "" && p.natEnabled && p.natInterface == "" && p.peers == [q]
    requires q.presharedKey != "" && q.endpoint != "" && q.keepalive > 0
    ensures ServerLines(p) ==
            ["# Generated by wgpilot — " + p.ifaceName, "[Interface]", "PrivateKey" + " = " + p.privateKey,
             "Address" + " = " + p.address, "ListenPort" + " = " + PrintInt(p.listenPort), "DNS" + " = " + p.dns,
             "PostUp" + " = " + Masquerade("A", "eth0"), "PostDown" + " = " + Masquerade("D", "eth0"),
             "", "# " + q.name, "[Peer]", "PublicKey" + " = " + q.publicKey, "PresharedKey" + " = " + q.presharedKey,
             "AllowedIPs" + " = " + q.allowedIPs, "Endpoint" + " = " + q.endpoint,
             "PersistentKeepalive" + " = " + PrintInt(q.keepalive)]
  {
    hide Masquerade, PrintInt;
    OnePeerLines(q);
  }

  /** ... and with as little as there can be; */
  lemma BareServer(p: ServerParams, q: ExportPeer)
    requires p.dns == "" && !p.natEnabled && p.peers == [q]
    requires q.presharedKey == "" && q.endpoint == "" && q.keepalive <= 0
    ensures ServerLines(p) ==
            ["# Generated by wgpilot — " + p.ifaceName, "[Interface]", "PrivateKey" + " = " + p.privateKey,
             "Address" + " = " + p.address, "ListenPort" + " = " + PrintInt(p.listenPort),
             "", "# " + q.name, "[Peer]", "PublicKey" + " = " + q.publicKey, "AllowedIPs" + " = " + q.allowedIPs]
  {
    hide PrintInt;
    OnePeerLines(q);
  }

  /** likewise for a client. */
  lemma FullClient(p: ClientParams)
    requires p.dns != "" && p.presharedKey != "" && p.keepalive > 0
    ensures ClientLines(p) ==
            ["# Generated by wgpilot — " + p.name, "[Interface]", "PrivateKey" + " = " + p.privateKey,
             "Address" + " = " + p.address, "DNS" + " = " + p.dns, "", "[Peer]", "PublicKey" + " = " + p.serverKey,
             "PresharedKey" + " = " + p.presharedKey, "AllowedIPs" + " = " + p.allowedIPs,
             "Endpoint" + " = " + p.endpoint, "PersistentKeepalive" + " = " + PrintInt(p.keepalive)]
  {
    hide PrintInt;
  }

  // ----- Reading one line back -----

  /** A value that fits on a line and has no white space around it. */
  predicate Clean(v: string) {
    OneLine(v) && Unspaced(v)
  }

  /** A key name: letters only. */
  predicate Word(key: string) {
    key != "" && forall i :: 0 <= i < |key| ==> 'a' <= LowerChar(key[i]) <= 'z' && (key[i] as int) < 0x80
  }

  lemma WordChars(key: string)
    requires Word(key)
    ensures forall c :: c in key ==> c != '=' && c != '#' && c != ';' && c != '[' && c != '\n' && !IsSpace(c)
    ensures forall c :: c in Lower(key) ==> !IsSpace(c)
  {
    forall c | c in key
      ensures c != '=' && c != '#' && c != ';' && c != '[' && c != '\n' && !IsSpace(c)
    {
      var i :| 0 <= i < |key| && key[i] == c;
    }
    forall c | c in Lower(key)
      ensures !IsSpace(c)
    {
      var i :| 0 <= i < |key| && Lower(key)[i] == c;
    }
  }

  /** What is left of a setting line after trimming: a trailing blank goes with an empty value. */
  function TrimmedSetting(key: string, value: string): string {
    if value == "" then key + [' ', '='] else Setting(key, value)
  }

  lemma SettingTrimmed(key: string, value: string)
    requires Word(key) && Unspaced(value)
    ensures TrimSpace(DropCR(Setting(key, value))) == TrimmedSetting(key, value)
  {
    WordChars(key);
    var line := Setting(key, value);
    var n := |TrimmedSetting(key, value)|;
    assert line[0] == key[0] && key[0] in key;
    assert line[|key|..|key| + 3] == " = ";
    assert value != "" ==> line[|line| - 1] == value[|value| - 1];
    assert value == "" ==> line[|line| - 1] == ' ' && line[n - 1] == '=';
    assert DropCR(line) == line;
    StripAt(line, 0, n, IsSpace);
    assert line[0..n] == TrimmedSetting(key, value);
  }

  lemma KeyPart(key: string)
    requires Word(key)
    ensures TrimSpace(Lower(key + [' '])) == Lower(key)
  {
    WordChars(key);
    var low := Lower(key + [' ']);
    assert low == Lower(key) + [' '];
    assert Lower(key)[0] in Lower(key) && Lower(key)[|key| - 1] in Lower(key);
    StripAt(low, 0, |key|, IsSpace);
  }

  lemma ValuePart(value: string)
    requires Unspaced(value)
    ensures TrimSpace([' '] + value) == value && TrimSpace("") == ""
  {
    var s := [' '] + value;
    if value != "" {
      assert s[1] == value[0] && s[|s| - 1] == value[|value| - 1];
      StripAt(s, 1, |s|, IsSpace);
    } else {
      StripAt(s, 1, 1, IsSpace);
    }
  }

  lemma NotAHeader(key: string, line: string)
    requires Word(key) && line != "" && line[0] == key[0]
    ensures line[0] != '#' && line[0] != ';' && Lower(line) != "[interface]" && Lower(line) != "[peer]"
  {
    assert 'a' <= Lower(line)[0] <= 'z';
  }

  lemma SettingCut(key: string, value: string)
    requires Word(key)
    ensures var t := TrimmedSetting(key, value);
            && t != "" && t[0] == key[0] && IndexOf(t, '=') == |key| + 1 && |key| + 1 < |t|
            && t[..|key| + 1] == key + [' ']
            && t[|key| + 2..] == if value == "" then "" else [' '] + value
  {
    WordChars(key);
    var t := TrimmedSetting(key, value);
    var k := key + [' '];
    if value == "" {
      assert t == k + ['='] + "";
      IndexOfAt(k, '=', "");
    } else {
      assert t == k + ['='] + ([' '] + value);
      IndexOfAt(k, '=', [' '] + value);
    }
  }

  /** A printed setting is read back as the same key and value. */
  lemma ReadSetting(st: Parser, key: string, value: string)
    requires Word(key) && Unspaced(value)
    ensures StepLine(st, Setting(key, value)) == SetKey(st, Lower(key), value)
  {
    hide SetKey, TrimmedSetting, IndexOf, Setting, DropCR, TrimSpace, Lower;
    var t := TrimmedSetting(key, value);
    SettingTrimmed(key, value);
    SettingCut(key, value);
    NotAHeader(key, t);
    KeyPart(key);
    ValuePart(value);
  }

  lemma ReadComment(st: Parser, text: string)
    ensures StepLine(st, "# " + text) == st && StepLine(st, "") == st
  {
    var line := DropCR("# " + text);
    assert line[0] == '#';
    KeepsFirst(line);
    ValuePart("");
  }

  lemma {:induction false} KeepsFirst(s: string)
    requires s != "" && !IsSpace(s[0])
    ensures TrimSpace(s) != "" && TrimSpace(s)[0] == s[0]
    decreases |s|
  {
    assert StripLeft(s, IsSpace) == s;
    if IsSpace(s[|s| - 1]) {
      KeepsFirst(s[..|s| - 1]);
      assert StripLeft(s[..|s| - 1], IsSpace) == s[..|s| - 1];
    }
  }

  lemma ReadSections(st: Parser)
    ensures StepLine(st, "[Interface]") == st.(section := InInterface)
    ensures StepLine(st, "[Peer]") == Parser(InPeer, Some(NoPeer), st.cfg.(peers := Collected(st)))
  {
    TrimSpaceUnspaced("[Interface]");
    TrimSpaceUnspaced("[Peer]");
    assert Lower("[Interface]") == "[interface]";
    assert Lower("[Peer]") == "[peer]";
  }

  // ----- Reading blocks of lines back -----

  lemma ReadOne(st: Parser, line: string)
    ensures ParseLines(st, [line]) == StepLine(st, line)
  {
    hide StepLine;
    ParseLinesFirst(st, line, []);
    assert [line] + [] == [line];
  }

  lemma {:induction false} ReadConcat(st: Parser, a: seq<string>, b: seq<string>)
    ensures ParseLines(st, a + b) == ParseLines(ParseLines(st, a), b)
    decreases |a|
  {
    hide StepLine;
    if a == [] {
      assert a + b == b;
    } else {
      ReadConcat(StepLine(st, a[0]), a[1..], b);
      assert a + b == [a[0]] + (a[1..] + b);
      ParseLinesFirst(st, a[0], a[1..] + b);
      assert a == [a[0]] + a[1..];
    }
  }

  lemma ReadKey(st: Parser, key: string, value: string)
    requires Word(key) && Unspaced(value)
    ensures ParseLines(st, [Setting(key, value)]) == SetKey(st, Lower(key), value)
  {
    hide StepLine, SetKey, Lower, ParseLines;
    ReadOne(st, Setting(key, value));
    ReadSetting(st, key, value);
  }

  lemma ReadOptional(st: Parser, key: string, value: string)
    requires Word(key) && Unspaced(value)
    ensures ParseLines(st, Optional(key, value)) == if value == "" then st else SetKey(st, Lower(key), value)
  {
    hide StepLine, SetKey, Lower;
    if value != "" {
      ReadKey(st, key, value);
    }
  }

  // The key names as printed and as compared.

  lemma AddressWords()
    ensures Word("PrivateKey") && Lower("PrivateKey") == "privatekey"
    ensures Word("Address") && Lower("Address") == "address"
  {
  }

  lemma PortWords()
    ensures Word("ListenPort") && Lower("ListenPort") == "listenport"
    ensures Word("DNS") && Lower("DNS") == "dns"
  {
  }

  lemma HookWords()
    ensures Word("PostUp") && Lower("PostUp") == "postup"
    ensures Word("PostDown") && Lower("PostDown") == "postdown"
  {
  }

  lemma PeerKeyWords()
    ensures Word("PublicKey") && Lower("PublicKey") == "publickey"
    ensures Word("PresharedKey") && Lower("PresharedKey") == "presharedkey"
  {
  }

  lemma RouteWords()
    ensures Word("AllowedIPs") && Lower("AllowedIPs") == "allowedips"
    ensures Word("Endpoint") && Lower("Endpoint") == "endpoint"
  {
  }

  lemma KeepaliveWords()
    ensures Word("PersistentKeepalive") && Lower("PersistentKeepalive") == "persistentkeepalive"
  {
  }

  lemma PrintIntUnspaced(n: int)
    ensures Clean(PrintInt(n)) && PrintInt(n) != ""
  {
    var s := PrintInt(n);
    assert forall i :: 0 <= i < |s| ==> IsDigit(s[i]) || s[i] == '-';
  }

  function NotNegative(n: int): int {
    if n > 0 then n else 0
  }

  lemma ReadKeepalive(st: Parser, n: int)
    requires Int64(n) && st.section == InPeer && st.current.Some? && st.current.value.keepalive == 0
    ensures ParseLines(st, Keepalive(n)) == st.(current := Some(st.current.value.(keepalive := NotNegative(n))))
  {
    hide StepLine, Lower, Atoi, PrintInt;
    if n > 0 {
      PrintIntUnspaced(n);
      KeepaliveWords();
      AtoiPrintInt(n);
      ReadKey(st, "PersistentKeepalive", PrintInt(n));
    } else {
      assert st.(current := Some(st.current.value.(keepalive := 0))) == st;
    }
  }

  /** The open peer after each line of a peer section. */
  function Open(st: Parser, p: ImportedPeer): Parser {
    Parser(InPeer, Some(p), st.cfg.(peers := Collected(st)))
  }

  lemma ReadPeerStart(st: Parser, key: string)
    requires Clean(key)
    ensures ParseLines(st, ["[Peer]", Setting("PublicKey", key)]) == Open(st, NoPeer.(publicKey := key))
  {
    hide StepLine, Lower, ParseLines, Collected, Setting;
    ReadConcat(st, ["[Peer]"], [Setting("PublicKey", key)]);
    assert ["[Peer]"] + [Setting("PublicKey", key)] == ["[Peer]", Setting("PublicKey", key)];
    ReadOne(st, "[Peer]");
    ReadSections(st);
    PeerKeyWords();
    ReadKey(Open(st, NoPeer), "PublicKey", key);
  }

  lemma ReadPeerKeys(st: Parser, p: ImportedPeer, psk: string, allowed: string)
    requires Clean(psk) && Clean(allowed) && p.presharedKey == ""
    ensures ParseLines(Open(st, p), Optional("PresharedKey", psk) + [Setting("AllowedIPs", allowed)])
         == Open(st, p.(presharedKey := psk, allowedIPs := allowed))
  {
    hide StepLine, Lower, ParseLines, Collected, Setting, Optional;
    PeerKeyWords();
    RouteWords();
    ReadConcat(Open(st, p), Optional("PresharedKey", psk), [Setting("AllowedIPs", allowed)]);
    ReadOptional(Open(st, p), "PresharedKey", psk);
    var p1 := p.(presharedKey := psk);
    ReadKey(Open(st, p1), "AllowedIPs", allowed);
  }

  lemma ReadEndpoint(st: Parser, p: ImportedPeer, endpoint: string)
    requires Clean(endpoint) && p.endpoint == ""
    ensures ParseLines(Open(st, p), Optional("Endpoint", endpoint)) == Open(st, p.(endpoint := endpoint))
    ensures ParseLines(Open(st, p), [Setting("Endpoint", endpoint)]) == Open(st, p.(endpoint := endpoint))
  {
    hide StepLine, Lower, ParseLines, Collected, Setting, Optional;
    RouteWords();
    ReadOptional(Open(st, p), "Endpoint", endpoint);
    ReadKey(Open(st, p), "Endpoint", endpoint);
  }

  /** A whole peer section, whichever way its endpoint is printed. */
  lemma ReadPeerFields(st: Parser, key: string, psk: string, allowed: string, endpoint: string, lines: seq<string>,
                       keepalive: int)
    requires Clean(key) && Clean(psk) && Clean(allowed) && Clean(endpoint) && Int64(keepalive)
    requires lines == Optional("Endpoint", endpoint) || lines == [Setting("Endpoint", endpoint)]
    ensures ParseLines(st, PeerFields(key, psk, allowed, lines, keepalive))
         == Open(st, ImportedPeer(key, psk, allowed, endpoint, NotNegative(keepalive)))
  {
    hide StepLine, Lower, ParseLines, Collected, Setting, Optional, Keepalive;
    var a := ["[Peer]", Setting("PublicKey", key)];
    var b := Optional("PresharedKey", psk) + [Setting("AllowedIPs", allowed)];
    assert PeerFields(key, psk, allowed, lines, keepalive) == (a + b) + lines + Keepalive(keepalive);
    ReadConcat(st, (a + b) + lines, Keepalive(keepalive));
    ReadConcat(st, a + b, lines);
    ReadConcat(st, a, b);
    ReadPeerStart(st, key);
    var p1 := NoPeer.(publicKey := key);
    ReadPeerKeys(st, p1, psk, allowed);
    var p2 := p1.(presharedKey := psk, allowedIPs := allowed);
    ReadEndpoint(st, p2, endpoint);
    var p3 := p2.(endpoint := endpoint);
    ReadKeepalive(Open(st, p3), keepalive);
  }

  // ----- The server file -----

  predicate CleanPeer(p: ExportPeer) {
    && OneLine(p.name) && Clean(p.publicKey) && Clean(p.presharedKey) && Clean(p.allowedIPs) && Clean(p.endpoint)
    && Int64(p.keepalive)
  }

  function Imported(p: ExportPeer): ImportedPeer {
    ImportedPeer(p.publicKey, p.presharedKey, p.allowedIPs, p.endpoint, NotNegative(p.keepalive))
  }

  function ImportedAll(ps: seq<ExportPeer>): seq<ImportedPeer> {
    if ps == [] then [] else ImportedAll(ps[..|ps| - 1]) + [Imported(ps[|ps| - 1])]
  }

  predicate CleanServer(p: ServerParams) {
    && OneLine(p.ifaceName) && Clean(p.privateKey) && Clean(p.address) && Clean(p.dns) && OneLine(p.natInterface)
    && Int64(p.listenPort) && forall i :: 0 <= i < |p.peers| ==> CleanPeer(p.peers[i])
  }

  lemma ReadPeer(st: Parser, p: ExportPeer)
    requires CleanPeer(p)
    ensures ParseLines(st, PeerLines(p)) == Open(st, Imported(p))
  {
    hide StepLine, ParseLines, PeerFields, Open, Optional;
    var c := "# " + p.name;
    var f := PeerFields(p.publicKey, p.presharedKey, p.allowedIPs, Optional("Endpoint", p.endpoint), p.keepalive);
    assert PeerLines(p) == ([""] + [c]) + f;
    ReadConcat(st, [""] + [c], f);
    ReadConcat(st, [""], [c]);
    ReadOne(st, "");
    ReadOne(st, c);
    ReadComment(st, p.name);
    var lines := Optional("Endpoint", p.endpoint);
    ReadPeerFields(st, p.publicKey, p.presharedKey, p.allowedIPs, p.endpoint, lines, p.keepalive);
  }

  /** Reading the peers in order collects them in order and leaves the interface alone. */
  lemma {:induction false} ReadPeers(st: Parser, ps: seq<ExportPeer>)
    requires forall i :: 0 <= i < |ps| ==> CleanPeer(ps[i])
    requires st.current.None? && st.cfg.peers == []
    ensures var r := ParseLines(st, AllPeerLines(ps));
            Collected(r) == ImportedAll(ps) && r.cfg.(peers := []) == st.cfg
  {
    hide StepLine, PeerLines, CleanPeer;
    if ps != [] {
      var n := |ps| - 1;
      ReadPeers(st, ps[..n]);
      var mid := ParseLines(st, AllPeerLines(ps[..n]));
      ReadConcat(st, AllPeerLines(ps[..n]), PeerLines(ps[n]));
      ReadPeer(mid, ps[n]);
    }
  }

  lemma MasqueradeClean(action: string, iface: string)
    requires OneLine(action) && OneLine(iface)
    ensures Clean(Masquerade(action, iface))
  {
    var m := Masquerade(action, iface);
    assert m[0] == 'i';
    assert m[|m| - 1] == 'E';
    var a, b, c, d := "iptables -t nat -", " POSTROUTING -o ", " -j MASQUERADE; ip6tables -t nat -", " -j MASQUERADE";
    assert OneLine(a) && OneLine(b) && OneLine(c) && OneLine(d);
    assert m == a + action + b + iface + c + action + b + iface + d;
  }

  lemma ReadNat(st: Parser, p: ServerParams)
    requires OneLine(p.natInterface) && st.section == InInterface
    ensures ParseLines(st, NatLines(p)) == st
  {
    hide StepLine, ParseLines, Lower, Setting, Masquerade, Clean;
    if p.natEnabled {
      var iface := if p.natInterface == "" then "eth0" else p.natInterface;
      HookWords();
      MasqueradeClean("A", iface);
      MasqueradeClean("D", iface);
      var up, down := Setting("PostUp", Masquerade("A", iface)), Setting("PostDown", Masquerade("D", iface));
      assert [up, down] == [up] + [down];
      ReadConcat(st, [up], [down]);
      assert Unspaced(Masquerade("A", iface)) && Unspaced(Masquerade("D", iface)) by {
        UnspacedOf(Masquerade("A", iface));
        UnspacedOf(Masquerade("D", iface));
      }
      ReadKey(st, "PostUp", Masquerade("A", iface));
      ReadKey(st, "PostDown", Masquerade("D", iface));
    } else {
      ReadNothing(st);
    }
  }

  lemma UnspacedOf(v: string)
    requires Clean(v)
    ensures Unspaced(v)
  {
  }

  lemma ReadNothing(st: Parser)
    ensures ParseLines(st, []) == st
  {
  }

  /** The first lines of either file: comment, section, key and address. */
  lemma ReadInterfaceStart(name: string, key: string, address: string)
    requires Clean(key) && Clean(address)
    ensures ParseLines(Start, InterfaceStart(name, key, address))
         == Parser(InInterface, None, Config(key, address, 0, "", 0, []))
  {
    hide StepLine, ParseLines, Lower, Setting;
    var c, k, a := "# Generated by wgpilot — " + name, Setting("PrivateKey", key), Setting("Address", address);
    assert c == "# " + ("Generated by wgpilot — " + name);
    assert [c, "[Interface]", k, a] == (([c] + ["[Interface]"]) + [k]) + [a];
    ReadConcat(Start, ([c] + ["[Interface]"]) + [k], [a]);
    ReadConcat(Start, [c] + ["[Interface]"], [k]);
    ReadConcat(Start, [c], ["[Interface]"]);
    ReadOne(Start, c);
    ReadComment(Start, "Generated by wgpilot — " + name);
    ReadOne(Start, "[Interface]");
    ReadSections(Start);
    AddressWords();
    var st := Start.(section := InInterface);
    ReadKey(st, "PrivateKey", key);
    ReadKey(st.(cfg := st.cfg.(privateKey := key)), "Address", address);
  }

  lemma ReadServerHeader(p: ServerParams)
    requires CleanServer(p)
    ensures ParseLines(Start, ServerHeader(p))
         == Parser(InInterface, None, Config(p.privateKey, p.address, p.listenPort, p.dns, 0, []))
  {
    hide StepLine, ParseLines, Lower, Setting, Optional, NatLines, Atoi, PrintInt;
    var first := InterfaceStart(p.ifaceName, p.privateKey, p.address);
    var port := Setting("ListenPort", PrintInt(p.listenPort));
    assert ServerHeader(p) == ((first + [port]) + Optional("DNS", p.dns)) + NatLines(p);
    ReadConcat(Start, (first + [port]) + Optional("DNS", p.dns), NatLines(p));
    ReadConcat(Start, first + [port], Optional("DNS", p.dns));
    ReadConcat(Start, first, [port]);
    ReadInterfaceStart(p.ifaceName, p.privateKey, p.address);
    PortWords();
    PrintIntUnspaced(p.listenPort);
    AtoiPrintInt(p.listenPort);
    var st := Parser(InInterface, None, Config(p.privateKey, p.address, 0, "", 0, []));
    ReadKey(st, "ListenPort", PrintInt(p.listenPort));
    var st1 := st.(cfg := st.cfg.(listenPort := p.listenPort));
    ReadOptional(st1, "DNS", p.dns);
    ReadNat(st1.(cfg := st1.cfg.(dns := p.dns)), p);
  }

  // ----- No line break inside a line -----

  ghost predicate SingleLines(lines: seq<string>) {
    forall i :: 0 <= i < |lines| ==> OneLine(lines[i])
  }

  lemma SingleConcat(a: seq<string>, b: seq<string>)
    requires SingleLines(a) && SingleLines(b)
    ensures SingleLines(a + b)
  {
    hide OneLine;
  }

  lemma SettingSingle(key: string, value: string)
    requires OneLine(key) && OneLine(value)
    ensures OneLine(Setting(key, value)) && SingleLines([Setting(key, value)]) && SingleLines(Optional(key, value))
  {
  }

  /** A setting whose key is a word is a single line when its value is. */
  lemma WordSingle(key: string, value: string)
    requires Word(key) && OneLine(value)
    ensures OneLine(Setting(key, value)) && SingleLines([Setting(key, value)]) && SingleLines(Optional(key, value))
  {
    hide Setting, Optional;
    WordChars(key);
    SettingSingle(key, value);
  }

  lemma PlainLines(text: string)
    requires OneLine(text)
    ensures OneLine("[Peer]") && OneLine("[Interface]") && OneLine("") && OneLine("# " + text)
  {
  }

  lemma PeerFieldsSingle(key: string, psk: string, allowed: string, lines: seq<string>, keepalive: int)
    requires OneLine(key) && OneLine(psk) && OneLine(allowed) && SingleLines(lines)
    ensures SingleLines(PeerFields(key, psk, allowed, lines, keepalive))
  {
    hide OneLine, Setting, Optional, PrintInt, Word, Lower;
    PlainLines("") by { assert OneLine("") by { EmptyIsOneLine(); } }
    PeerKeyWords();
    RouteWords();
    KeepaliveWords();
    WordSingle("PublicKey", key);
    WordSingle("PresharedKey", psk);
    WordSingle("AllowedIPs", allowed);
    PrintIntUnspaced(keepalive);
    WordSingle("PersistentKeepalive", PrintInt(keepalive));
    var a := ["[Peer]", Setting("PublicKey", key)];
    SingleConcat(a, Optional("PresharedKey", psk));
    SingleConcat(a + Optional("PresharedKey", psk), [Setting("AllowedIPs", allowed)]);
    SingleConcat(a + Optional("PresharedKey", psk) + [Setting("AllowedIPs", allowed)], lines);
    SingleConcat(a + Optional("PresharedKey", psk) + [Setting("AllowedIPs", allowed)] + lines, Keepalive(keepalive));
  }

  lemma EmptyIsOneLine()
    ensures OneLine("")
  {
  }

  lemma PeerLinesSingle(p: ExportPeer)
    requires CleanPeer(p)
    ensures SingleLines(PeerLines(p))
  {
    hide Setting, Optional, PeerFields, Word, Lower;
    PlainLines(p.name);
    RouteWords();
    WordSingle("Endpoint", p.endpoint);
    PeerFieldsSingle(p.publicKey, p.presharedKey, p.allowedIPs, Optional("Endpoint", p.endpoint), p.keepalive);
    var e := Optional("Endpoint", p.endpoint);
    SingleConcat(["", "# " + p.name], PeerFields(p.publicKey, p.presharedKey, p.allowedIPs, e, p.keepalive));
  }

  lemma {:induction false} AllPeerLinesSingle(ps: seq<ExportPeer>)
    requires forall i :: 0 <= i < |ps| ==> CleanPeer(ps[i])
    ensures SingleLines(AllPeerLines(ps))
  {
    hide CleanPeer, PeerLines;
    if ps != [] {
      AllPeerLinesSingle(ps[..|ps| - 1]);
      PeerLinesSingle(ps[|ps| - 1]);
      SingleConcat(AllPeerLines(ps[..|ps| - 1]), PeerLines(ps[|ps| - 1]));
    }
  }

  lemma NatLinesSingle(p: ServerParams)
    requires OneLine(p.natInterface)
    ensures SingleLines(NatLines(p))
  {
    hide Setting, Masquerade, Word, Lower;
    if p.natEnabled {
      var iface := if p.natInterface == "" then "eth0" else p.natInterface;
      HookWords();
      MasqueradeClean("A", iface);
      MasqueradeClean("D", iface);
      WordSingle("PostUp", Masquerade("A", iface));
      WordSingle("PostDown", Masquerade("D", iface));
    }
  }

  lemma HeadingSingle(name: string)
    requires OneLine(name)
    ensures OneLine("# Generated by wgpilot — " + name)
  {
    assert OneLine("# Generated by wgpilot — ");
  }

  lemma StartSingle(name: string, key: string, address: string)
    requires OneLine(name) && OneLine(key) && OneLine(address)
    ensures SingleLines(InterfaceStart(name, key, address))
  {
    hide Setting, Word, Lower;
    HeadingSingle(name);
    PlainLines(name);
    AddressWords();
    WordSingle("PrivateKey", key);
    WordSingle("Address", address);
  }

  lemma ServerLinesSingle(p: ServerParams)
    requires CleanServer(p)
    ensures SingleLines(ServerLines(p))
  {
    hide Setting, Optional, Word, Lower, NatLines, PrintInt, AllPeerLines, CleanPeer, SingleLines;
    var first := InterfaceStart(p.ifaceName, p.privateKey, p.address);
    var port := [Setting("ListenPort", PrintInt(p.listenPort))];
    StartSingle(p.ifaceName, p.privateKey, p.address);
    PortWords();
    PrintIntUnspaced(p.listenPort);
    WordSingle("ListenPort", PrintInt(p.listenPort));
    WordSingle("DNS", p.dns);
    NatLinesSingle(p);
    AllPeerLinesSingle(p.peers);
    SingleConcat(first, port);
    SingleConcat(first + port, Optional("DNS", p.dns));
    SingleConcat(first + port + Optional("DNS", p.dns), NatLines(p));
    assert first + port + Optional("DNS", p.dns) + NatLines(p) == ServerHeader(p);
    SingleConcat(ServerHeader(p), AllPeerLines(p.peers));
  }

  lemma ClientLinesSingle(p: ClientParams)
    requires CleanClient(p)
    ensures SingleLines(ClientLines(p))
  {
    hide Setting, Optional, Word, Lower, PeerFields, SingleLines;
    var first := InterfaceStart(p.name, p.privateKey, p.address);
    var e := [Setting("Endpoint", p.endpoint)];
    StartSingle(p.name, p.privateKey, p.address);
    PortWords();
    RouteWords();
    WordSingle("DNS", p.dns);
    WordSingle("Endpoint", p.endpoint);
    BlankSingle();
    PeerFieldsSingle(p.serverKey, p.presharedKey, p.allowedIPs, e, p.keepalive);
    SingleConcat(first, Optional("DNS", p.dns));
    SingleConcat(first + Optional("DNS", p.dns), [""]);
    var fields := PeerFields(p.serverKey, p.presharedKey, p.allowedIPs, e, p.keepalive);
    SingleConcat(first + Optional("DNS", p.dns) + [""], fields);
  }

  lemma BlankSingle()
    ensures SingleLines([""])
  {
  }

  // ----- The round trips -----

  /** Every line fits the scanner's buffer. */
  predicate AllFit(lines: seq<string>) {
    forall i :: 0 <= i < |lines| ==> Fits(lines[i])
  }

  lemma ParseUnlines(lines: seq<string>)
    requires SingleLines(lines)
    ensures Parse(Unlines(lines)) == if AllFit(lines) then Finish(ParseLines(Start, lines)) else Err(LineTooLong)
  {
    hide Fits, ParseLines, Finish, Unlines, RawLines;
    LinesRoundTrip(lines);
  }

  /** Parsing a generated server file gives back its key, address, port, DNS servers and its
      peers in order, unless a line is too long for the scanner. */
  lemma ServerRoundTrip(p: ServerParams)
    requires CleanServer(p) && GenerateServerConfig(p).Ok?
    ensures Parse(GenerateServerConfig(p).value) ==
            if AllFit(ServerLines(p))
            then Ok(Config(p.privateKey, p.address, p.listenPort, p.dns, 0, ImportedAll(p.peers)))
            else Err(LineTooLong)
  {
    hide CleanPeer, ServerHeader, AllPeerLines, ParseLines, Parse, AllFit, ImportedAll, Unlines;
    ServerLinesSingle(p);
    ParseUnlines(ServerLines(p));
    ReadConcat(Start, ServerHeader(p), AllPeerLines(p.peers));
    ReadServerHeader(p);
    var st := ParseLines(Start, ServerHeader(p));
    ReadPeers(st, p.peers);
    var r := ParseLines(st, AllPeerLines(p.peers));
    assert r.cfg.privateKey == r.cfg.(peers := []).privateKey == p.privateKey;
  }

  predicate CleanClient(p: ClientParams) {
    && OneLine(p.name) && Clean(p.privateKey) && Clean(p.address) && Clean(p.dns) && Clean(p.serverKey)
    && Clean(p.presharedKey) && Clean(p.endpoint) && Clean(p.allowedIPs) && Int64(p.keepalive)
  }

  lemma ReadClient(p: ClientParams)
    requires CleanClient(p)
    ensures ParseLines(Start, ClientLines(p))
         == Open(Parser(InInterface, None, Config(p.privateKey, p.address, 0, p.dns, 0, [])),
                 ImportedPeer(p.serverKey, p.presharedKey, p.allowedIPs, p.endpoint, NotNegative(p.keepalive)))
  {
    hide Setting, Optional, Word, Lower, PeerFields, ParseLines, StepLine, Open;
    var first := InterfaceStart(p.name, p.privateKey, p.address);
    var e := [Setting("Endpoint", p.endpoint)];
    var f := PeerFields(p.serverKey, p.presharedKey, p.allowedIPs, e, p.keepalive);
    assert ClientLines(p) == ((first + Optional("DNS", p.dns)) + [""]) + f;
    ReadConcat(Start, (first + Optional("DNS", p.dns)) + [""], f);
    ReadConcat(Start, first + Optional("DNS", p.dns), [""]);
    ReadConcat(Start, first, Optional("DNS", p.dns));
    ReadInterfaceStart(p.name, p.privateKey, p.address);
    PortWords();
    var st := Parser(InInterface, None, Config(p.privateKey, p.address, 0, "", 0, []));
    ReadOptional(st, "DNS", p.dns);
    var st1 := st.(cfg := st.cfg.(dns := p.dns));
    ReadOne(st1, "");
    ReadComment(st1, "");
    ReadPeerFields(st1, p.serverKey, p.presharedKey, p.allowedIPs, p.endpoint, e, p.keepalive);
  }

  /** Parsing a generated client file gives back its interface fields and its one peer. */
  lemma ClientRoundTrip(p: ClientParams)
    requires CleanClient(p) && GenerateClientConfig(p).Ok?
    ensures Parse(GenerateClientConfig(p).value) ==
            if AllFit(ClientLines(p))
            then
              var peer := ImportedPeer(p.serverKey, p.presharedKey, p.allowedIPs, p.endpoint, NotNegative(p.keepalive));
              Ok(Config(p.privateKey, p.address, 0, p.dns, 0, [peer]))
            else Err(LineTooLong)
  {
    hide ClientLines, ParseLines, Parse, AllFit, Unlines;
    ClientLinesSingle(p);
    ParseUnlines(ClientLines(p));
    ReadClient(p);
    var peer := ImportedPeer(p.serverKey, p.presharedKey, p.allowedIPs, p.endpoint, NotNegative(p.keepalive));
    var st := ParseLines(Start, ClientLines(p));
    assert st.cfg.peers == [] && Collected(st) == [peer];
  }

  // ----- Lines that do not fit -----

  lemma {:induction false} ByteLenAtLeast(s: string)
    ensures ByteLen(s) >= |s|
  {
    if s != "" {
      ByteLenAtLeast(s[..|s| - 1]);
    }
  }

  lemma LongSetting(key: string, value: string)
    requires |value| >= MaxLine
    ensures !Fits(Setting(key, value))
  {
    ByteLenAtLeast(Setting(key, value));
  }

  lemma {:induction false} PeerAmongLines(ps: seq<ExportPeer>, i: nat)
    requires i < |ps|
    ensures Setting("AllowedIPs", ps[i].allowedIPs) in AllPeerLines(ps)
  {
    hide Setting, Optional, Keepalive;
    var n := |ps| - 1;
    if i < n {
      PeerAmongLines(ps[..n], i);
    } else {
      assert Setting("AllowedIPs", ps[n].allowedIPs) in PeerLines(ps[n]);
    }
  }

  /** One peer with AllowedIPs of 65,536 characters or more makes the exported file unreadable. */
  lemma LongAllowedIPs(p: ServerParams, i: nat)
    requires CleanServer(p) && GenerateServerConfig(p).Ok?
    requires i < |p.peers| && |p.peers[i].allowedIPs| >= MaxLine
    ensures Parse(GenerateServerConfig(p).value) == Err(LineTooLong)
  {
    hide CleanServer, CleanPeer, ServerHeader, AllPeerLines, Parse, Fits, ImportedAll, Unlines, Setting;
    var line := Setting("AllowedIPs", p.peers[i].allowedIPs);
    PeerAmongLines(p.peers, i);
    LongSetting("AllowedIPs", p.peers[i].allowedIPs);
    var k :| 0 <= k < |AllPeerLines(p.peers)| && AllPeerLines(p.peers)[k] == line;
    assert ServerLines(p)[|ServerHeader(p)| + k] == line;
    ServerRoundTrip(p);
  }

  /** There is such a file, and likewise for a client. */
  lemma LongFilesExist(long: string)
    requires long == seq(MaxLine, i => '1')
    ensures var s := ServerParams("wg0", "k", "a", 1, "", false, "", [ExportPeer("p", "k", "", long, "", 0)]);
            CleanServer(s) && GenerateServerConfig(s).Ok? && Parse(GenerateServerConfig(s).value) == Err(LineTooLong)
    ensures var c := ClientParams("p", "k", "a", "", "k", "", "e", long, 0);
            CleanClient(c) && GenerateClientConfig(c).Ok? && Parse(GenerateClientConfig(c).value) == Err(LineTooLong)
  {
    hide Parse, Fits, Unlines, Setting, PeerFields, Optional;
    var s := ServerParams("wg0", "k", "a", 1, "", false, "", [ExportPeer("p", "k", "", long, "", 0)]);
    LongAllowedIPs(s, 0);
    var c := ClientParams("p", "k", "a", "", "k", "", "e", long, 0);
    LongClient(c);
  }

  lemma LongClient(p: ClientParams)
    requires CleanClient(p) && GenerateClientConfig(p).Ok? && |p.allowedIPs| >= MaxLine
    ensures Parse(GenerateClientConfig(p).value) == Err(LineTooLong)
  {
    hide CleanClient, Parse, Fits, Unlines, Setting;
    LongSetting("AllowedIPs", p.allowedIPs);
    var lines := ClientLines(p);
    assert Setting("AllowedIPs", p.allowedIPs) in lines;
    var k :| 0 <= k < |lines| && lines[k] == Setting("AllowedIPs", p.allowedIPs);
    ClientRoundTrip(p);
  }
}
