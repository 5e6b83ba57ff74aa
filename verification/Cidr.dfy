/**
 IP blocks and their text: dotted-decimal IPv4 addresses, CIDR notation and the
 comma-separated AllowedIPs column.  IPv6 text is not spelled out: `other` stands for
 whatever the library does with text that is not a dotted-decimal CIDR.
 */
module Cidr {
  import opened Wrappers
  import opened Text
  import opened Arith

  const ADDRESSES: nat := 0x1_0000_0000

  lemma Pow2At32()
    ensures Pow2(32) == ADDRESSES
  {
    assert Pow2(8) == 256;
    Pow2Add(8, 8);
    Pow2Add(16, 16);
  }

  /** Number of addresses in a block with `ones` leading mask bits. */
  function Size(ones: nat): (r: nat)
    requires ones <= 32
    ensures r >= 1
  {
    Pow2(32 - ones)
  }

  lemma SizeDivides(ones: nat)
    requires ones <= 32
    ensures Size(ones) * Pow2(ones) == ADDRESSES
    ensures Size(ones) <= ADDRESSES
  {
    Pow2At32();
    Pow2Add(32 - ones, ones);
    Pow2Monotone(32 - ones, 32);
  }

  /** Network address: the address with its host bits cleared. */
  function Masked(addr: nat, ones: nat): (base: nat)
    requires ones <= 32
    ensures base <= addr < base + Size(ones)
    ensures base % Size(ones) == 0
  {
    RoundedDown(addr, Size(ones));
    addr / Size(ones) * Size(ones)
  }

  lemma RoundedDown(x: nat, k: nat)
    requires k > 0
    ensures 0 <= x / k * k <= x < x / k * k + k
    ensures (x / k * k) % k == 0
  {
    DivMod(x, k);
    ModOfMultiple(x / k, k);
  }

  lemma MaskedUnique(addr: nat, base: nat, ones: nat)
    requires ones <= 32 && base % Size(ones) == 0
    requires base <= addr < base + Size(ones)
    ensures Masked(addr, ones) == base
  {
    var k := Size(ones);
    DivMod(base, k);
    DivUnique(addr, base / k, addr - base, k);
  }

  // ----- Blocks -----

  /** A masked block.  An IPv6 block is known by the one text the library prints for it. */
  datatype IPNet = V4(base: nat, ones: nat) | V6(text: string)

  predicate ValidNet(n: IPNet) {
    match n
    case V4(base, ones) => ones <= 32 && base < ADDRESSES && base % Size(ones) == 0
    case V6(text) => ':' in text && forall c :: c in text ==> c != ',' && !IsBlank(c)
  }

  /** The block's text is one the library prints: it reads it back as the same block. */
  predicate Canonical(n: IPNet, other: string -> Option<IPNet>) {
    n.V6? ==> other(n.text) == Some(n)
  }

  /** What is asked of the library on text that is not dotted-decimal: whatever it accepts
      it turns into a masked block with canonical text. */
  ghost predicate Lawful(other: string -> Option<IPNet>) {
    forall s :: other(s).Some? ==> ValidNet(other(s).value) && Canonical(other(s).value, other)
  }

  // ----- IPv4 text -----

  function PrintIPv4(a: nat): string
    requires a < ADDRESSES
  {
    Decimal(a / 256 / 256 / 256) + ['.'] + (Decimal(a / 256 / 256 % 256) + ['.'] +
    (Decimal(a / 256 % 256) + ['.'] + Decimal(a % 256)))
  }

  /** One octet: digits only, no leading zero, at most 255. */
  function ParseOctet(s: string): (r: Option<nat>)
    ensures r.Some? ==> r.value < 256
  {
    if s != "" && AllDigits(s) && (|s| > 1 ==> s[0] != '0') && Number(s) <= 255
    then Some(Number(s)) else None
  }

  function ParseIPv4(s: string): (r: Option<nat>)
    ensures r.Some? ==> r.value < ADDRESSES
  {
    var f := Split(s, '.');
    if |f| != 4 then None
    else
      match (ParseOctet(f[0]), ParseOctet(f[1]), ParseOctet(f[2]), ParseOctet(f[3]))
      case (Some(a), Some(b), Some(c), Some(d)) => Some(((a * 256 + b) * 256 + c) * 256 + d)
      case _ => None
  }

  lemma OctetRoundTrip(n: nat)
    requires n < 256
    ensures ParseOctet(Decimal(n)) == Some(n)
  {
    DecimalRoundTrip(n);
  }

  lemma OctetExactly(s: string, n: nat)
    ensures ParseOctet(s) == Some(n) <==> n < 256 && s == Decimal(n)
  {
    hide Decimal, Number;
    if ParseOctet(s) == Some(n) {
      NumberRoundTrip(s);
    }
    if n < 256 {
      OctetRoundTrip(n);
    }
  }

  lemma NotADigit(s: string, c: char)
    requires AllDigits(s) && !IsDigit(c)
    ensures c !in s
  {
  }

  lemma FieldBefore(digits: string, rest: string)
    requires AllDigits(digits)
    ensures Split(digits + ['.'] + rest, '.') == [digits] + Split(rest, '.')
  {
    NotADigit(digits, '.');
    SplitHead(digits, '.', rest);
  }

  lemma LastField(digits: string)
    requires AllDigits(digits)
    ensures Split(digits, '.') == [digits]
  {
    NotADigit(digits, '.');
    SplitWhole(digits, '.');
  }

  lemma FourFields(w: string, x: string, y: string, z: string)
    requires AllDigits(w) && AllDigits(x) && AllDigits(y) && AllDigits(z)
    ensures Split(w + ['.'] + (x + ['.'] + (y + ['.'] + z)), '.') == [w, x, y, z]
  {
    hide Split, AllDigits;
    LastField(z);
    FieldBefore(y, z);
    FieldBefore(x, y + ['.'] + z);
    FieldBefore(w, x + ['.'] + (y + ['.'] + z));
  }

  lemma PrintIPv4Fields(a: nat)
    requires a < ADDRESSES
    ensures Split(PrintIPv4(a), '.') == [Decimal(a / 256 / 256 / 256), Decimal(a / 256 / 256 % 256),
                                         Decimal(a / 256 % 256), Decimal(a % 256)]
  {
    hide Decimal;
    FourFields(Decimal(a / 256 / 256 / 256), Decimal(a / 256 / 256 % 256), Decimal(a / 256 % 256), Decimal(a % 256));
  }

  lemma IPv4RoundTrip(a: nat)
    requires a < ADDRESSES
    ensures ParseIPv4(PrintIPv4(a)) == Some(a)
  {
    PrintIPv4Fields(a);
    OctetRoundTrip(a / 256 / 256 / 256);
    OctetRoundTrip(a / 256 / 256 % 256);
    OctetRoundTrip(a / 256 % 256);
    OctetRoundTrip(a % 256);
  }

  lemma FourOctets(w: nat, x: nat, y: nat, z: nat)
    requires w < 256 && x < 256 && y < 256 && z < 256
    ensures var a := ((w * 256 + x) * 256 + y) * 256 + z;
            && a < ADDRESSES
            && a / 256 / 256 / 256 == w && a / 256 / 256 % 256 == x && a / 256 % 256 == y && a % 256 == z
  {
  }

  lemma JoinFour(f: seq<string>, c: char)
    requires |f| == 4
    ensures Join(f, c) == f[0] + [c] + (f[1] + [c] + (f[2] + [c] + f[3]))
  {
    var g, h := f[1..], f[2..];
    JoinOne(f[3], c);
    JoinFirst(f[2], c, [f[3]]);
    assert h == [f[2]] + [f[3]];
    JoinFirst(f[1], c, h);
    assert g == [f[1]] + h;
    JoinFirst(f[0], c, g);
    assert f == [f[0]] + g;
  }

  /** The dotted form printed for an address is the only text read as it. */
  lemma IPv4Exactly(s: string, a: nat)
    ensures ParseIPv4(s) == Some(a) <==> a < ADDRESSES && s == PrintIPv4(a)
  {
    hide Decimal, ParseOctet, Split, Join;
    if ParseIPv4(s) == Some(a) {
      var f := Split(s, '.');
      var w, x, y, z := ParseOctet(f[0]).value, ParseOctet(f[1]).value, ParseOctet(f[2]).value, ParseOctet(f[3]).value;
      OctetExactly(f[0], w);
      OctetExactly(f[1], x);
      OctetExactly(f[2], y);
      OctetExactly(f[3], z);
      FourOctets(w, x, y, z);
      SplitJoins(s, '.');
      JoinFour(f, '.');
    }
    if a < ADDRESSES {
      IPv4RoundTrip(a);
    }
  }

  lemma PrintIPv4Injective(a: nat, b: nat)
    requires a < ADDRESSES && b < ADDRESSES && PrintIPv4(a) == PrintIPv4(b)
    ensures a == b
  {
    IPv4RoundTrip(a);
    IPv4RoundTrip(b);
  }

  /** Only digits and dots. */
  predicate Dotted(s: string) {
    forall c :: c in s ==> IsDigit(c) || c == '.'
  }

  lemma PrintIPv4Dotted(a: nat)
    requires a < ADDRESSES
    ensures Dotted(PrintIPv4(a))
  {
  }

  // ----- CIDR text -----

  /** Address and mask length of a dotted-decimal CIDR; the address keeps its host bits. */
  function ParseCIDR4(s: string): (r: Option<(nat, nat)>)
    ensures r.Some? ==> r.value.0 < ADDRESSES && r.value.1 <= 32
  {
    var i := IndexOf(s, '/');
    if i == |s| then None
    else
      var mask := s[i + 1..];
      match ParseIPv4(s[..i])
      case None => None
      case Some(a) =>
        if mask != "" && AllDigits(mask) && Number(mask) <= 32 then Some((a, Number(mask))) else None
  }

  /** What is read: the dotted form, a slash, and digits for a length up to 32, leading zeros
      allowed. */
  lemma Cidr4Exactly(s: string, a: nat, ones: nat)
    ensures ParseCIDR4(s) == Some((a, ones)) <==>
            && a < ADDRESSES && ones <= 32
            && exists mask :: mask != "" && AllDigits(mask) && Number(mask) == ones && s == PrintIPv4(a) + "/" + mask
  {
    hide ParseIPv4, PrintIPv4, Number, IndexOf;
    if ParseCIDR4(s) == Some((a, ones)) {
      var i := IndexOf(s, '/');
      IPv4Exactly(s[..i], a);
      assert s == PrintIPv4(a) + "/" + s[i + 1..];
    }
    if && a < ADDRESSES && ones <= 32
       && exists mask :: mask != "" && AllDigits(mask) && Number(mask) == ones && s == PrintIPv4(a) + "/" + mask
    {
      var mask :| mask != "" && AllDigits(mask) && Number(mask) == ones && s == PrintIPv4(a) + "/" + mask;
      PrintIPv4Dotted(a);
      IndexOfAt(PrintIPv4(a), '/', mask);
      assert s == PrintIPv4(a) + ['/'] + mask;
      assert s[..|PrintIPv4(a)|] == PrintIPv4(a) && s[|PrintIPv4(a)| + 1..] == mask;
      IPv4Exactly(PrintIPv4(a), a);
    }
  }

  function ParseNet(s: string, other: string -> Option<IPNet>): Option<IPNet> {
    match ParseCIDR4(s)
    case Some(p) => Some(V4(Masked(p.0, p.1), p.1))
    case None => other(s)
  }

  /** Host bits are dropped: the block has the written length and holds the written address. */
  lemma ParsedBlock(s: string, other: string -> Option<IPNet>)
    requires ParseCIDR4(s).Some?
    ensures var (a, ones) := ParseCIDR4(s).value;
            var net := ParseNet(s, other);
            && net.Some? && net.value.V4? && net.value.ones == ones && ValidNet(net.value)
            && net.value.base <= a < net.value.base + Pow2(32 - ones)
  {
  }

  lemma ParseNetValid(s: string, other: string -> Option<IPNet>)
    requires Lawful(other)
    ensures ParseNet(s, other).Some? ==>
              ValidNet(ParseNet(s, other).value) && Canonical(ParseNet(s, other).value, other)
  {
  }

  function CidrText(a: nat, ones: nat): string
    requires a < ADDRESSES
  {
    PrintIPv4(a) + ['/'] + Decimal(ones)
  }

  lemma CidrWords(a: nat, ones: nat)
    requires a < ADDRESSES
    ensures CidrText(a, ones) == PrintIPv4(a) + "/" + Decimal(ones)
  {
  }

  lemma Cidr4RoundTrip(a: nat, ones: nat)
    requires a < ADDRESSES && ones <= 32
    ensures ParseCIDR4(CidrText(a, ones)) == Some((a, ones))
  {
    PrintIPv4Dotted(a);
    var s := CidrText(a, ones);
    IndexOfAt(PrintIPv4(a), '/', Decimal(ones));
    assert s[..|PrintIPv4(a)|] == PrintIPv4(a);
    assert s[|PrintIPv4(a)| + 1..] == Decimal(ones);
    IPv4RoundTrip(a);
    DecimalRoundTrip(ones);
  }

  /** Canonical text of a block. */
  function NetText(n: IPNet): string
    requires ValidNet(n)
  {
    match n
    case V4(base, ones) => CidrText(base, ones)
    case V6(text) => text
  }

  /** Characters of printed CIDR text: no separator, no blank, and a colon only in IPv6. */
  lemma NetTextChars(n: IPNet)
    requires ValidNet(n)
    ensures NetText(n) != ""
    ensures forall c :: c in NetText(n) ==> c != ',' && !IsBlank(c)
    ensures n.V4? ==> ':' !in NetText(n)
  {
    if n.V4? {
      PrintIPv4Dotted(n.base);
      forall c | c in NetText(n)
        ensures IsDigit(c) || c == '.' || c == '/'
      {
      }
    }
  }

  /** A dotted-decimal address holds digits and dots only. */
  lemma ParsedIPv4Only(s: string, c: char)
    requires ParseIPv4(s).Some? && !IsDigit(c) && c != '.'
    ensures c !in s
  {
    var fields := Split(s, '.');
    forall k | 0 <= k < |fields|
      ensures c !in fields[k]
    {
      NotADigit(fields[k], c);
    }
    if c in s {
      FieldsCover(s, '.', c);
    }
  }

  /** A string holding a colon is never read as dotted-decimal. */
  lemma ColonNotCidr4(s: string)
    requires ':' in s
    ensures ParseCIDR4(s).None?
  {
    var i := IndexOf(s, '/');
    if i < |s| && ParseIPv4(s[..i]).Some? && AllDigits(s[i + 1..]) {
      assert s == s[..i] + ['/'] + s[i + 1..];
      ParsedIPv4Only(s[..i], ':');
      NotADigit(s[i + 1..], ':');
    }
  }

  lemma {:induction false} FieldsCover(s: string, sep: char, c: char)
    requires c in s && c != sep
    ensures exists k :: 0 <= k < |Split(s, sep)| && c in Split(s, sep)[k]
    decreases |s|
  {
    hide IndexOf;
    var i := IndexOf(s, sep);
    var f := Split(s, sep);
    if i == |s| {
      assert c in f[0];
    } else if c in s[..i] {
      assert c in f[0];
    } else {
      assert s == s[..i] + [sep] + s[i + 1..];
      FieldsCover(s[i + 1..], sep, c);
      var k :| 0 <= k < |Split(s[i + 1..], sep)| && c in Split(s[i + 1..], sep)[k];
      assert c in f[k + 1];
    }
  }

  lemma NetRoundTrip(n: IPNet, other: string -> Option<IPNet>)
    requires ValidNet(n) && Canonical(n, other)
    ensures ParseNet(NetText(n), other) == Some(n)
  {
    match n
    case V4(base, ones) =>
      Cidr4RoundTrip(base, ones);
      MaskedUnique(base, base, ones);
    case V6(text) =>
      ColonNotCidr4(text);
  }

  lemma NetTextInjective(m: IPNet, n: IPNet)
    requires ValidNet(m) && ValidNet(n) && NetText(m) == NetText(n)
    ensures m == n
  {
    NetTextChars(m);
    NetTextChars(n);
    if m.V4? && n.V4? {
      Cidr4RoundTrip(m.base, m.ones);
      Cidr4RoundTrip(n.base, n.ones);
    }
  }

  // ----- AllowedIPs lists -----

  function ParseParts(parts: seq<string>, other: string -> Option<IPNet>): Option<seq<IPNet>> {
    if parts == [] then Some([])
    else
      match (ParseParts(parts[..|parts| - 1], other), ParseNet(parts[|parts| - 1], other))
      case (Some(ns), Some(n)) => Some(ns + [n])
      case _ => None
  }

  function ParseList(s: string, other: string -> Option<IPNet>): Option<seq<IPNet>> {
    ParseParts(TrimmedParts(Split(s, ',')), other)
  }

  lemma {:induction false} PrefixFails(parts: seq<string>, i: nat, other: string -> Option<IPNet>)
    requires i <= |parts| && ParseParts(parts[..i], other).None?
    ensures ParseParts(parts, other).None?
    decreases |parts|
  {
    if i < |parts| {
      assert parts[..|parts| - 1][..i] == parts[..i];
      PrefixFails(parts[..|parts| - 1], i, other);
    } else {
      assert parts[..i] == parts;
    }
  }

  lemma ParsePartsSnoc(parts: seq<string>, last: string, other: string -> Option<IPNet>)
    ensures ParseParts(parts + [last], other)
         == match (ParseParts(parts, other), ParseNet(last, other))
            case (Some(ns), Some(n)) => Some(ns + [n])
            case _ => None
  {
    assert (parts + [last])[..|parts|] == parts;
  }

  lemma ParseNext(parts: seq<string>, i: nat, other: string -> Option<IPNet>)
    requires i < |parts|
    ensures ParseParts(parts[..i + 1], other)
         == match (ParseParts(parts[..i], other), ParseNet(parts[i], other))
            case (Some(ns), Some(n)) => Some(ns + [n])
            case _ => None
  {
    assert parts[..i + 1][..i] == parts[..i];
  }

  lemma EmptyList(other: string -> Option<IPNet>)
    ensures ParseList("", other) == Some([])
  {
    assert Split("", ',') == [""];
    assert TrimmedParts([""]) == [] by {
      assert ([""])[..0] == [];
    }
  }

  /** Reads the AllowedIPs column; the first bad part fails the whole list. */
  method ParseAllowedIPs(s: string, other: string -> Option<IPNet>) returns (r: Option<seq<IPNet>>)
    ensures r == ParseList(s, other)
  {
    if s == "" {
      EmptyList(other);
      return Some([]);
    }
    var parts := SplitAndTrim(s);
    var result: seq<IPNet> := [];
    for i := 0 to |parts|
      invariant ParseParts(parts[..i], other) == Some(result)
    {
      ParseNext(parts, i, other);
      var n := ParseNet(parts[i], other);
      if n.None? {
        PrefixFails(parts, i + 1, other);
        return None;
      }
      result := result + [n.value];
    }
    assert parts[..|parts|] == parts;
    return Some(result);
  }

  lemma {:induction false} ParsePartsValid(parts: seq<string>, other: string -> Option<IPNet>)
    requires Lawful(other)
    ensures ParseParts(parts, other).Some? ==>
              forall n :: n in ParseParts(parts, other).value ==> ValidNet(n) && Canonical(n, other)
  {
    if parts != [] {
      ParsePartsValid(parts[..|parts| - 1], other);
      ParseNetValid(parts[|parts| - 1], other);
    }
  }

  function FormatNets(nets: seq<IPNet>): string
    requires forall n :: n in nets ==> ValidNet(n)
  {
    if nets == [] then ""
    else if |nets| == 1 then NetText(nets[0])
    else FormatNets(nets[..|nets| - 1]) + ", " + NetText(nets[|nets| - 1])
  }

  method FormatIPNets(nets: seq<IPNet>) returns (s: string)
    requires forall n :: n in nets ==> ValidNet(n)
    ensures s == FormatNets(nets)
  {
    if |nets| == 0 {
      return "";
    }
    s := NetText(nets[0]);
    assert nets[..1] == [nets[0]];
    for i := 1 to |nets|
      invariant s == FormatNets(nets[..i])
    {
      assert nets[..i + 1][..i] == nets[..i];
      s := s + ", " + NetText(nets[i]);
    }
    assert nets[..|nets|] == nets;
  }

  lemma TrimUnspaced(t: string)
    requires t != "" && forall c :: c in t ==> !IsBlank(c)
    ensures Kept(t) == [t] && Kept([' '] + t) == [t]
  {
    StripAt(t, 0, |t|, IsBlank);
    assert t[0..|t|] == t;
    var u := [' '] + t;
    assert u[1] == t[0] && u[|u| - 1] == t[|t| - 1];
    StripAt(u, 1, |u|, IsBlank);
    assert u[1..|u|] == t;
  }

  function Texts(nets: seq<IPNet>): (r: seq<string>)
    requires forall n :: n in nets ==> ValidNet(n)
    ensures |r| == |nets|
  {
    if nets == [] then [] else Texts(nets[..|nets| - 1]) + [NetText(nets[|nets| - 1])]
  }

  lemma AppendPart(head: string, t: string)
    requires t != "" && forall c :: c in t ==> c != ',' && !IsBlank(c)
    ensures TrimmedParts(Split(t, ',')) == [t]
    ensures TrimmedParts(Split(head + ", " + t, ',')) == TrimmedParts(Split(head, ',')) + [t]
  {
    TrimUnspaced(t);
    SplitWhole(t, ',');
    TrimmedPartsSnoc([], t);
    assert [] + [t] == [t];
    assert head + ", " + t == head + [','] + ([' '] + t);
    SplitSnoc(head, ',', [' '] + t);
    TrimmedPartsSnoc(Split(head, ','), [' '] + t);
  }

  lemma {:induction false} FormatParts(nets: seq<IPNet>)
    requires nets != [] && forall n :: n in nets ==> ValidNet(n)
    ensures TrimmedParts(Split(FormatNets(nets), ',')) == Texts(nets)
  {
    var n := |nets| - 1;
    NetTextChars(nets[n]);
    AppendPart(FormatNets(nets[..n]), NetText(nets[n]));
    if n > 0 {
      FormatParts(nets[..n]);
    }
  }

  lemma {:induction false} ParseTexts(nets: seq<IPNet>, other: string -> Option<IPNet>)
    requires forall n :: n in nets ==> ValidNet(n) && Canonical(n, other)
    ensures ParseParts(Texts(nets), other) == Some(nets)
  {
    if nets != [] {
      hide ParseParts, ParseNet, NetText, ValidNet, Canonical;
      var n := |nets| - 1;
      ParseTexts(nets[..n], other);
      NetRoundTrip(nets[n], other);
      ParsePartsSnoc(Texts(nets[..n]), NetText(nets[n]), other);
      assert nets == nets[..n] + [nets[n]];
    }
  }

  /** Reading what the reconciler prints for a kernel peer gives the same blocks in order. */
  lemma FormatRoundTrip(nets: seq<IPNet>, other: string -> Option<IPNet>)
    requires forall n :: n in nets ==> ValidNet(n) && Canonical(n, other)
    ensures ParseList(FormatNets(nets), other) == Some(nets)
  {
    if nets == [] {
      EmptyList(other);
    } else {
      FormatParts(nets);
      ParseTexts(nets, other);
    }
  }

  /** Printing a list that was read and reading it again changes nothing. */
  lemma ReadPrintRead(s: string, other: string -> Option<IPNet>)
    requires Lawful(other) && ParseList(s, other).Some?
    ensures var ns := ParseList(s, other).value;
            && (forall n :: n in ns ==> ValidNet(n) && Canonical(n, other))
            && ParseList(FormatNets(ns), other) == Some(ns)
  {
    ParsePartsValid(TrimmedParts(Split(s, ',')), other);
    FormatRoundTrip(ParseList(s, other).value, other);
  }
}
