/** Decimal numbers and separated lists, as the Go code prints and reads them. */
module Text {

  // ----- Decimal digits -----

  predicate IsDigit(c: char) {
    '0' <= c <= '9'
  }

  predicate AllDigits(s: string) {
    forall i :: 0 <= i < |s| ==> IsDigit(s[i])
  }

  function DigitChar(d: nat): (c: char)
    requires d < 10
    ensures IsDigit(c)
  {
    '0' + d as char
  }

  function DigitValue(c: char): (d: nat)
    requires IsDigit(c)
    ensures d < 10
  {
    (c - '0') as int
  }

  /** Shortest decimal form, as the verbs %d and %s print it. */
  function Decimal(n: nat): (s: string)
    ensures s != "" && AllDigits(s)
  {
    if n < 10 then [DigitChar(n)] else Decimal(n / 10) + [DigitChar(n % 10)]
  }

  function Number(s: string): nat
    requires AllDigits(s)
  {
    if s == "" then 0
    else Number(s[..|s| - 1]) * 10 + DigitValue(s[|s| - 1])
  }

  /** Reading back what was printed, with no leading zero to trip a strict reader. */
  lemma {:induction false} DecimalRoundTrip(n: nat)
    ensures Number(Decimal(n)) == n
    ensures |Decimal(n)| > 1 ==> Decimal(n)[0] != '0'
    ensures n > 0 ==> Decimal(n)[0] != '0'
  {
    if n >= 10 {
      DecimalRoundTrip(n / 10);
      var s := Decimal(n);
      assert s[..|s| - 1] == Decimal(n / 10);
      assert s[0] == Decimal(n / 10)[0];
    } else {
      assert Decimal(n)[..0] == "";
    }
  }

  lemma DecimalInjective(m: nat, n: nat)
    requires Decimal(m) == Decimal(n)
    ensures m == n
  {
    DecimalRoundTrip(m);
    DecimalRoundTrip(n);
  }

  /** The only digits that spell n without a leading zero. */
  lemma {:induction false} NumberRoundTrip(s: string)
    requires s != "" && AllDigits(s) && (|s| > 1 ==> s[0] != '0')
    ensures Decimal(Number(s)) == s
    ensures s[0] != '0' ==> Number(s) > 0
  {
    hide Decimal, DigitValue;
    var n := |s| - 1;
    assert s == s[..n] + [s[n]];
    if n > 0 {
      NumberRoundTrip(s[..n]);
      DecimalSnoc(Number(s[..n]), s[n]);
    } else {
      assert Number(s[..0]) == 0;
      OneDigit(s[0]);
    }
  }

  lemma OneDigit(c: char)
    requires IsDigit(c)
    ensures Decimal(DigitValue(c)) == [c] && (c != '0' ==> DigitValue(c) > 0)
  {
  }

  lemma DecimalSnoc(m: nat, c: char)
    requires m > 0 && IsDigit(c)
    ensures Decimal(m * 10 + DigitValue(c)) == Decimal(m) + [c]
  {
    var n := m * 10 + DigitValue(c);
    assert n / 10 == m && n % 10 == DigitValue(c);
  }

  /** %d of a signed integer. */
  function PrintInt(n: int): string {
    if n < 0 then ['-'] + Decimal(-n) else Decimal(n)
  }

  lemma PrintIntInjective(m: int, n: int)
    requires PrintInt(m) == PrintInt(n)
    ensures m == n
  {
    assert forall x: int :: PrintInt(x)[0] == '-' <==> x < 0;
    if m < 0 && n < 0 {
      assert PrintInt(m)[1..] == Decimal(-m) && PrintInt(n)[1..] == Decimal(-n);
      DecimalInjective(-m, -n);
    } else if m >= 0 && n >= 0 {
      DecimalInjective(m, n);
    }
  }

  // ----- Splitting on a character -----

  /** Position of the first `c`, or the length when there is none. */
  function IndexOf(s: string, c: char): (i: nat)
    ensures i <= |s|
    ensures i < |s| ==> s[i] == c
    ensures forall k :: 0 <= k < i ==> s[k] != c
    ensures i == |s| <==> c !in s
  {
    if s == "" then 0
    else if s[0] == c then 0
    else
      var r := IndexOf(s[1..], c);
      assert s == [s[0]] + s[1..];
      r + 1
  }

  lemma IndexOfAt(a: string, c: char, b: string)
    requires c !in a
    ensures IndexOf(a + [c] + b, c) == |a|
  {
    var s := a + [c] + b;
    var i := IndexOf(s, c);
    assert s[|a|] == c;
    assert forall k :: 0 <= k < |a| ==> s[k] == a[k];
  }

  /** Pieces of `s` between occurrences of `c`; always at least one piece. */
  function Split(s: string, c: char): (parts: seq<string>)
    ensures parts != []
    decreases |s|
  {
    var i := IndexOf(s, c);
    if i == |s| then [s] else [s[..i]] + Split(s[i + 1..], c)
  }

  lemma SplitHead(a: string, c: char, b: string)
    requires c !in a
    ensures Split(a + [c] + b, c) == [a] + Split(b, c)
  {
    IndexOfAt(a, c, b);
    var s := a + [c] + b;
    assert s[..|a|] == a;
    assert s[|a| + 1..] == b;
  }

  lemma SplitWhole(a: string, c: char)
    requires c !in a
    ensures Split(a, c) == [a]
  {
  }

  /** The pieces with the separator between them. */
  function Join(parts: seq<string>, c: char): string {
    if parts == [] then ""
    else if |parts| == 1 then parts[0]
    else Join(parts[..|parts| - 1], c) + [c] + parts[|parts| - 1]
  }

  lemma {:induction false} JoinFirst(first: string, c: char, rest: seq<string>)
    requires rest != []
    ensures Join([first] + rest, c) == first + [c] + Join(rest, c)
  {
    var n := |rest| - 1;
    var all := [first] + rest;
    assert all[..|all| - 1] == [first] + rest[..n];
    if n == 0 {
      assert all[..1] == [first];
    } else {
      JoinFirst(first, c, rest[..n]);
    }
  }

  lemma {:induction false} SplitJoins(s: string, c: char)
    ensures Join(Split(s, c), c) == s && forall i :: 0 <= i < |Split(s, c)| ==> c !in Split(s, c)[i]
    decreases |s|
  {
    hide IndexOf, Join;
    var i := IndexOf(s, c);
    if i < |s| {
      SplitJoins(s[i + 1..], c);
      JoinFirst(s[..i], c, Split(s[i + 1..], c));
      CutAt(s, c);
      assert c !in s[..i];
    } else {
      JoinOne(s, c);
    }
  }

  lemma JoinOne(s: string, c: char)
    ensures Join([s], c) == s
  {
  }

  lemma {:induction false} JoinSplits(parts: seq<string>, c: char)
    requires parts != [] && forall i :: 0 <= i < |parts| ==> c !in parts[i]
    ensures Split(Join(parts, c), c) == parts
  {
    hide Split;
    var n := |parts| - 1;
    if n == 0 {
      SplitWhole(parts[0], c);
    } else {
      JoinSplits(parts[..n], c);
      SplitSnoc(Join(parts[..n], c), c, parts[n]);
      assert parts == parts[..n] + [parts[n]];
    }
  }

  /** Splitting gives the one list of pieces free of the separator that joins to the text. */
  lemma SplitExactly(s: string, c: char, parts: seq<string>)
    ensures Split(s, c) == parts <==>
            parts != [] && (forall i :: 0 <= i < |parts| ==> c !in parts[i]) && Join(parts, c) == s
  {
    hide Split;
    SplitJoins(s, c);
    if parts != [] && forall i :: 0 <= i < |parts| ==> c !in parts[i] {
      JoinSplits(parts, c);
    }
  }

  // ----- Trimming -----

  function StripLeft(s: string, cut: char -> bool): string {
    if s != "" && cut(s[0]) then StripLeft(s[1..], cut) else s
  }

  function StripRight(s: string, cut: char -> bool): string {
    if s != "" && cut(s[|s| - 1]) then StripRight(s[..|s| - 1], cut) else s
  }

  function Strip(s: string, cut: char -> bool): string {
    StripRight(StripLeft(s, cut), cut)
  }

  lemma {:induction false} StripLeftAt(s: string, j: nat, cut: char -> bool)
    requires j <= |s| && (j < |s| ==> !cut(s[j]))
    requires forall i :: 0 <= i < j ==> cut(s[i])
    ensures StripLeft(s, cut) == s[j..]
    decreases j
  {
    if j > 0 {
      StripLeftAt(s[1..], j - 1, cut);
      assert s[1..][j - 1..] == s[j..];
    }
  }

  lemma {:induction false} StripRightAt(s: string, k: nat, cut: char -> bool)
    requires k <= |s| && (k > 0 ==> !cut(s[k - 1]))
    requires forall i :: k <= i < |s| ==> cut(s[i])
    ensures StripRight(s, cut) == s[..k]
    decreases |s|
  {
    if k < |s| {
      StripRightAt(s[..|s| - 1], k, cut);
      assert s[..|s| - 1][..k] == s[..k];
    }
  }

  /** Stripping keeps what lies between the first and the last character that stay. */
  lemma StripAt(s: string, j: nat, k: nat, cut: char -> bool)
    requires j <= k <= |s|
    requires j < |s| ==> !cut(s[j])
    requires k > j ==> !cut(s[k - 1])
    requires forall x :: 0 <= x < j ==> cut(s[x])
    requires forall x :: k <= x < |s| ==> cut(s[x])
    ensures Strip(s, cut) == s[j..k]
  {
    StripLeftAt(s, j, cut);
    StripRightAt(s[j..], k - j, cut);
    assert s[j..][..k - j] == s[j..k];
  }

  predicate IsBlank(c: char) {
    c == ' ' || c == '\t'
  }

  /** White space as strings.TrimSpace knows it. */
  predicate IsSpace(c: char) {
    || c == ' ' || '\t' <= c <= '\r' || c == '\U{85}' || c == '\U{A0}' || c == '\U{1680}'
    || '\U{2000}' <= c <= '\U{200A}' || c == '\U{2028}' || c == '\U{2029}' || c == '\U{202F}'
    || c == '\U{205F}' || c == '\U{3000}'
  }

  function TrimSpace(s: string): string {
    Strip(s, IsSpace)
  }

  predicate Unspaced(s: string) {
    s != "" ==> !IsSpace(s[0]) && !IsSpace(s[|s| - 1])
  }

  lemma TrimSpaceUnspaced(s: string)
    requires Unspaced(s)
    ensures TrimSpace(s) == s
  {
    StripAt(s, 0, |s|, IsSpace);
  }

  // ----- Comma-separated lists -----

  /** One piece of a comma-separated list: dropped when blank, trimmed otherwise. */
  function Kept(part: string): seq<string> {
    var t := Strip(part, IsBlank);
    if t == "" then [] else [t]
  }

  function TrimmedParts(parts: seq<string>): seq<string> {
    if parts == [] then []
    else TrimmedParts(parts[..|parts| - 1]) + Kept(parts[|parts| - 1])
  }

  lemma TrimmedPartsSnoc(parts: seq<string>, last: string)
    ensures TrimmedParts(parts + [last]) == TrimmedParts(parts) + Kept(last)
  {
    assert (parts + [last])[..|parts|] == parts;
  }

  lemma CutAt(s: string, c: char)
    requires c in s
    ensures s == s[..IndexOf(s, c)] + [c] + s[IndexOf(s, c) + 1..]
  {
  }

  lemma Regroup(x: string, c: char, y: string, b: string)
    ensures (x + [c] + y) + [c] + b == x + [c] + (y + [c] + b)
  {
  }

  lemma {:induction false} SplitSnoc(a: string, c: char, b: string)
    requires c !in b
    ensures Split(a + [c] + b, c) == Split(a, c) + [b]
    decreases |a|
  {
    SplitWhole(b, c);
    if c !in a {
      SplitHead(a, c, b);
    } else {
      CutAt(a, c);
      SplitSnoc(a[IndexOf(a, c) + 1..], c, b);
      SplitUnder(a[..IndexOf(a, c)], c, a[IndexOf(a, c) + 1..], b);
    }
  }

  lemma SplitUnder(x: string, c: char, y: string, b: string)
    requires c !in x && Split(y + [c] + b, c) == Split(y, c) + [b]
    ensures Split(x + [c] + y + [c] + b, c) == Split(x + [c] + y, c) + [b]
  {
    Regroup(x, c, y, b);
    SplitHead(x, c, y + [c] + b);
    SplitHead(x, c, y);
    var p := Split(y, c);
    assert [x] + (p + [b]) == [x] + p + [b];
  }

  /** The two index loops that strip blanks from both ends of a piece. */
  method TrimPart(part: string) returns (kept: seq<string>)
    ensures kept == Kept(part)
  {
    var j := 0;
    while j < |part| && (part[j] == ' ' || part[j] == '\t')
      invariant 0 <= j <= |part|
      invariant forall x :: 0 <= x < j ==> IsBlank(part[x])
    {
      j := j + 1;
    }
    var k := |part|;
    while k > j && (part[k - 1] == ' ' || part[k - 1] == '\t')
      invariant j <= k <= |part|
      invariant forall x :: k <= x < |part| ==> IsBlank(part[x])
    {
      k := k - 1;
    }
    StripAt(part, j, k, IsBlank);
    kept := if j < k then [part[j..k]] else [];
  }

  /** The scan has reached `i`: `done` are the finished pieces, s[start..i] the open one. */
  ghost predicate Scanned(s: string, start: nat, i: nat, done: seq<string>) {
    start <= i <= |s| && ',' !in s[start..i] && done + Split(s[start..], ',') == Split(s, ',')
  }

  lemma ScannedCut(s: string, start: nat, i: nat, done: seq<string>)
    requires Scanned(s, start, i, done)
    ensures i < |s| && s[i] == ',' ==> Scanned(s, i + 1, i + 1, done + [s[start..i]])
    ensures i == |s| ==> done + [s[start..i]] == Split(s, ',')
  {
    hide Split;
    SplitStep(s, start, i);
    if i < |s| && s[i] == ',' {
      assert done + [s[start..i]] + Split(s[i + 1..], ',') == done + Split(s[start..], ',');
    }
  }

  lemma ScannedSkip(s: string, start: nat, i: nat, done: seq<string>)
    requires Scanned(s, start, i, done) && i < |s| && s[i] != ','
    ensures Scanned(s, start, i + 1, done)
  {
    assert s[start..i + 1] == s[start..i] + [s[i]];
  }

  lemma ScanStart(s: string)
    ensures Scanned(s, 0, 0, []) && TrimmedParts([]) == []
  {
    assert s[0..] == s && [] + Split(s, ',') == Split(s, ',');
  }

  /** One pass over the text; proved to keep exactly the trimmed, non-empty pieces. */
  method SplitAndTrim(s: string) returns (result: seq<string>)
    ensures result == TrimmedParts(Split(s, ','))
  {
    result := [];
    var start := 0;
    ghost var done: seq<string> := [];
    ScanStart(s);
    for i := 0 to |s|
      invariant 0 <= start
      invariant Scanned(s, start, i, done)
      invariant result == TrimmedParts(done)
    {
      if s[i] == ',' {
        ScannedCut(s, start, i, done);
        TrimmedPartsSnoc(done, s[start..i]);
        done := done + [s[start..i]];
        result := AddPart(result, s[start..i]);
        start := i + 1;
      } else {
        ScannedSkip(s, start, i, done);
      }
    }
    ScannedCut(s, start, |s|, done);
    TrimmedPartsSnoc(done, s[start..|s|]);
    result := AddPart(result, s[start..|s|]);
  }

  method AddPart(result: seq<string>, part: string) returns (r: seq<string>)
    ensures r == result + Kept(part)
  {
    var kept := TrimPart(part);
    r := result + kept;
  }

  lemma SplitStep(s: string, start: nat, i: nat)
    requires start <= i <= |s| && ',' !in s[start..i]
    ensures i < |s| && s[i] == ',' ==> Split(s[start..], ',') == [s[start..i]] + Split(s[i + 1..], ',')
    ensures i == |s| ==> Split(s[start..], ',') == [s[start..i]]
  {
    if i == |s| {
      assert s[start..i] == s[start..];
    } else if s[i] == ',' {
      assert s[start..] == s[start..i] + [','] + s[i + 1..];
      SplitHead(s[start..i], ',', s[i + 1..]);
    }
  }
}
