/** Base64 of section 4 of RFC 4648, over byte strings, as Go's StdEncoding does it. */
module Base64 {
  import opened Wrappers
  import opened Arith

  const PAD: Byte := 61
  const LF: Byte := 10
  const CR: Byte := 13

  function Digit(v: nat): Byte
    requires v < 64
  {
    if v < 26 then 65 + v else if v < 52 then 71 + v else if v < 62 then v - 4 else if v == 62 then 43 else 47
  }

  function Sextet(c: Byte): (r: Option<nat>)
    ensures r.Some? ==> r.value < 64
  {
    if 65 <= c <= 90 then Some(c - 65)
    else if 97 <= c <= 122 then Some(c - 71)
    else if 48 <= c <= 57 then Some(c + 4)
    else if c == 43 then Some(62)
    else if c == 47 then Some(63)
    else None
  }

  lemma DigitRoundTrip(v: nat)
    requires v < 64
    ensures Sextet(Digit(v)) == Some(v) && Digit(v) != PAD && Digit(v) != LF && Digit(v) != CR
  {
  }

  function Encode(x: seq<Byte>): (s: seq<Byte>)
    ensures |s| == (|x| + 2) / 3 * 4
  {
    if |x| == 0 then []
    else if |x| == 1 then [Digit(x[0] / 4), Digit(x[0] % 4 * 16), PAD, PAD]
    else if |x| == 2 then [Digit(x[0] / 4), Digit(x[0] % 4 * 16 + x[1] / 16), Digit(x[1] % 16 * 4), PAD]
    else
      [Digit(x[0] / 4), Digit(x[0] % 4 * 16 + x[1] / 16), Digit(x[1] % 16 * 4 + x[2] / 64), Digit(x[2] % 64)]
      + Encode(x[3..])
  }

  /** The decoder skips line breaks wherever they stand. */
  function SkipBreaks(s: seq<Byte>): seq<Byte> {
    if s == [] then []
    else if s[0] == LF || s[0] == CR then SkipBreaks(s[1..])
    else [s[0]] + SkipBreaks(s[1..])
  }

  /** Bytes of one full group of four digits. */
  function Group(a: nat, b: nat, c: nat, d: nat): seq<Byte>
    requires a < 64 && b < 64 && c < 64 && d < 64
  {
    [a * 4 + b / 16, b % 16 * 16 + c / 4, c % 4 * 64 + d]
  }

  /** Groups of four; padding only in the last one.  Unused low bits are not checked. */
  function DecodeGroups(s: seq<Byte>): Option<seq<Byte>> {
    if s == [] then Some([])
    else if |s| < 4 then None
    else
      match (Sextet(s[0]), Sextet(s[1]))
      case (Some(a), Some(b)) =>
        if s[2] == PAD then
          if s[3] == PAD && |s| == 4 then Some([a * 4 + b / 16]) else None
        else
          (match Sextet(s[2])
           case None => None
           case Some(c) =>
             if s[3] == PAD then
               if |s| == 4 then Some([a * 4 + b / 16, b % 16 * 16 + c / 4]) else None
             else
               match (Sextet(s[3]), DecodeGroups(s[4..]))
               case (Some(d), Some(rest)) => Some(Group(a, b, c, d) + rest)
               case _ => None)
      case _ => None
  }

  function Decode(s: seq<Byte>): Option<seq<Byte>> {
    DecodeGroups(SkipBreaks(s))
  }

  /** Exactly the two kinds of line break go, wherever they stand. */
  lemma {:induction false} BreaksSkipped(s: seq<Byte>, t: seq<Byte>, b: Byte)
    ensures b == 10 || b == 13 ==> SkipBreaks(s + [b] + t) == SkipBreaks(s + t)
  {
    if s == [] {
      assert s + [b] + t == [b] + t && ([b] + t)[1..] == t && s + t == t;
    } else {
      BreaksSkipped(s[1..], t, b);
      assert (s + [b] + t)[1..] == s[1..] + [b] + t && (s + t)[1..] == s[1..] + t;
    }
  }

  lemma {:induction false} NoBreaks(s: seq<Byte>)
    requires LF !in s && CR !in s
    ensures SkipBreaks(s) == s
  {
    if s != [] {
      NoBreaks(s[1..]);
      assert s == [s[0]] + s[1..];
    }
  }

  lemma {:induction false} EncodeHasNoBreaks(x: seq<Byte>)
    ensures LF !in Encode(x) && CR !in Encode(x)
    decreases |x|
  {
    if |x| >= 3 {
      EncodeHasNoBreaks(x[3..]);
    }
  }

  lemma GroupRoundTrip(x: Byte, y: Byte, z: Byte)
    ensures var a, b, c, d := x / 4, x % 4 * 16 + y / 16, y % 16 * 4 + z / 64, z % 64;
            a < 64 && b < 64 && c < 64 && d < 64 && Group(a, b, c, d) == [x, y, z]
  {
    Packed(x % 4, y / 16, 16);
    Packed(y % 16, z / 64, 4);
  }

  /** Two fields packed into one number come apart again. */
  lemma Packed(hi: nat, lo: nat, width: nat)
    requires lo < width
    ensures (hi * width + lo) / width == hi && (hi * width + lo) % width == lo
  {
    DivUnique(hi * width + lo, hi, lo, width);
  }

  lemma DecodeFour(a: nat, b: nat, c: nat, d: nat, rest: seq<Byte>)
    requires a < 64 && b < 64 && c < 64 && d < 64
    ensures DecodeGroups([Digit(a), Digit(b), Digit(c), Digit(d)] + rest) ==
            match DecodeGroups(rest)
            case Some(r) => Some(Group(a, b, c, d) + r)
            case None => None
  {
    hide Digit, Sextet, Group;
    DigitRoundTrip(a);
    DigitRoundTrip(b);
    DigitRoundTrip(c);
    DigitRoundTrip(d);
    var s := [Digit(a), Digit(b), Digit(c), Digit(d)] + rest;
    assert s[4..] == rest;
  }

  lemma DecodePadded(a: nat, b: nat, c: nat)
    requires a < 64 && b < 64 && c < 64
    ensures DecodeGroups([]) == Some([])
    ensures DecodeGroups([Digit(a), Digit(b), PAD, PAD]) == Some([a * 4 + b / 16])
    ensures DecodeGroups([Digit(a), Digit(b), Digit(c), PAD]) == Some([a * 4 + b / 16, b % 16 * 16 + c / 4])
  {
    hide Digit, Sextet;
    DigitRoundTrip(a);
    DigitRoundTrip(b);
    DigitRoundTrip(c);
  }

  lemma LastBytes(x: Byte, y: Byte)
    ensures var a, b, c, d := x / 4, x % 4 * 16, x % 4 * 16 + y / 16, y % 16 * 4;
            && a < 64 && b < 64 && c < 64 && d < 64
            && a * 4 + b / 16 == x && a * 4 + c / 16 == x && c % 16 * 16 + d / 4 == y
  {
  }

  lemma OneLeft(x: Byte)
    ensures DecodeGroups(Encode([x])) == Some([x])
  {
    hide Digit, DecodeGroups;
    LastBytes(x, 0);
    DecodePadded(x / 4, x % 4 * 16, 0);
  }

  lemma TwoLeft(x: Byte, y: Byte)
    ensures DecodeGroups(Encode([x, y])) == Some([x, y])
  {
    hide Digit, DecodeGroups;
    LastBytes(x, y);
    DecodePadded(x / 4, x % 4 * 16 + y / 16, y % 16 * 4);
  }

  lemma {:induction false} GroupsRoundTrip(x: seq<Byte>)
    ensures DecodeGroups(Encode(x)) == Some(x)
    decreases |x|
  {
    hide DecodeGroups, Digit;
    if |x| == 0 {
      DecodePadded(0, 0, 0);
    } else if |x| == 1 {
      OneLeft(x[0]);
      assert x == [x[0]];
    } else if |x| == 2 {
      TwoLeft(x[0], x[1]);
      assert x == [x[0], x[1]];
    } else {
      GroupsRoundTrip(x[3..]);
      GroupRoundTrip(x[0], x[1], x[2]);
      DecodeFour(x[0] / 4, x[0] % 4 * 16 + x[1] / 16, x[1] % 16 * 4 + x[2] / 64, x[2] % 64, Encode(x[3..]));
      assert x == [x[0], x[1], x[2]] + x[3..];
    }
  }

  lemma RoundTrip(x: seq<Byte>)
    ensures Decode(Encode(x)) == Some(x)
  {
    hide Encode, DecodeGroups, SkipBreaks;
    EncodeHasNoBreaks(x);
    NoBreaks(Encode(x));
    GroupsRoundTrip(x);
  }

  // ----- Against the standard -----

  /** Table 1 of section 4 of RFC 4648. */
  const UPPER: string := "ABCDEFGHIJKLMNOPQRSTUVWXYZ"
  const LOWER: string := "abcdefghijklmnopqrstuvwxyz"
  const ALPHABET: string := UPPER + LOWER + "0123456789+/"

  function Codes(s: string): seq<int> {
    seq(|s|, i requires 0 <= i < |s| => s[i] as int)
  }

  lemma UpperCase(v: nat)
    requires v < 26
    ensures UPPER[v] as int == 65 + v
  {
  }

  lemma LowerCase(v: nat)
    requires v < 26
    ensures LOWER[v] as int == 97 + v
  {
  }

  /** Every value has the digit of the table, and no other byte is a digit. */
  lemma DigitsAreAlphabet(v: nat, c: Byte)
    requires v < 64
    ensures ALPHABET[v] as int == Digit(v)
    ensures Sextet(c) == Some(v) <==> c == Digit(v)
  {
    if v < 26 {
      UpperCase(v);
      assert ALPHABET[v] == UPPER[v];
    } else if v < 52 {
      LowerCase(v - 26);
      assert ALPHABET[v] == LOWER[v - 26];
    } else {
      assert ALPHABET[v] == "0123456789+/"[v - 52];
    }
  }

  /** The vectors of section 10 of RFC 4648. */
  lemma TestVectors()
    ensures Encode([102]) == Codes("Zg==") && Encode([102, 111]) == Codes("Zm8=")
    ensures Encode([102, 111, 111]) == Codes("Zm9v")
  {
    assert [102, 111, 111][3..] == [];
  }

  /** The digit before the padding, whose low bits carry nothing. */
  predicate Loose(bytes: nat, digits: nat, i: nat) {
    (bytes % 3 == 1 && i == digits - 3) || (bytes % 3 == 2 && i == digits - 2)
  }

  /** What the text must be for x to come out: its encoding, up to the unused low bits. */
  predicate Spells(s: seq<Byte>, x: seq<Byte>) {
    SameBut(s, Encode(x), |x|)
  }

  predicate SameBut(s: seq<Byte>, code: seq<Byte>, bytes: nat) {
    |s| == |code| && forall i :: 0 <= i < |s| && !Loose(bytes, |s|, i) ==> s[i] == code[i]
  }

  /** Only encodings are decoded. */
  lemma {:induction false} DecodedIsEncoded(s: seq<Byte>, x: seq<Byte>)
    requires DecodeGroups(s) == Some(x)
    ensures Spells(s, x)
    decreases |s|
  {
    hide Digit, Sextet, Spells, Encode;
    if s == [] {
      NothingSpelled();
    } else {
      var a, b := Sextet(s[0]).value, Sextet(s[1]).value;
      SextetDigit(s[0]);
      SextetDigit(s[1]);
      if s[2] == PAD {
        assert s == [s[0], s[1], PAD, PAD];
        OneSpelled(s, a, b);
      } else {
        var c := Sextet(s[2]).value;
        SextetDigit(s[2]);
        if s[3] == PAD {
          assert s == [s[0], s[1], s[2], PAD];
          TwoSpelled(s, a, b, c);
        } else {
          var d := Sextet(s[3]).value;
          SextetDigit(s[3]);
          var rest := DecodeGroups(s[4..]).value;
          DecodedIsEncoded(s[4..], rest);
          ThreeSpelled(s, rest, a, b, c, d);
        }
      }
    }
  }

  lemma NothingSpelled()
    ensures Spells([], [])
  {
  }

  lemma OneSpelled(s: seq<Byte>, a: nat, b: nat)
    requires a < 64 && b < 64 && s == [Digit(a), Digit(b), PAD, PAD]
    ensures a * 4 + b / 16 < 256 && Spells(s, [a * 4 + b / 16])
  {
    hide Digit;
    OneByte(a, b);
  }

  lemma TwoSpelled(s: seq<Byte>, a: nat, b: nat, c: nat)
    requires a < 64 && b < 64 && c < 64 && s == [Digit(a), Digit(b), Digit(c), PAD]
    ensures a * 4 + b / 16 < 256 && b % 16 * 16 + c / 4 < 256 && Spells(s, [a * 4 + b / 16, b % 16 * 16 + c / 4])
  {
    hide Digit;
    OneByte(a, b);
    TwoBytes(a, b, c);
  }

  lemma ThreeSpelled(s: seq<Byte>, rest: seq<Byte>, a: nat, b: nat, c: nat, d: nat)
    requires a < 64 && b < 64 && c < 64 && d < 64 && |s| >= 4
    requires s[0] == Digit(a) && s[1] == Digit(b) && s[2] == Digit(c) && s[3] == Digit(d) && Spells(s[4..], rest)
    ensures Spells(s, Group(a, b, c, d) + rest)
  {
    hide Digit, Group, SameBut, Encode;
    ThreeBytes(a, b, c, d);
    var x := Group(a, b, c, d) + rest;
    EncodeGroup(Group(a, b, c, d), rest);
    var four := [Digit(a), Digit(b), Digit(c), Digit(d)];
    assert s == four + s[4..];
    SameLonger(four, s[4..], Encode(rest), |rest|);
  }

  lemma SameLonger(four: seq<Byte>, s: seq<Byte>, code: seq<Byte>, bytes: nat)
    requires |four| == 4 && SameBut(s, code, bytes)
    ensures SameBut(four + s, four + code, bytes + 3)
  {
    hide Loose;
    forall i | 0 <= i < |four + s| && !Loose(bytes + 3, |four + s|, i)
      ensures (four + s)[i] == (four + code)[i]
    {
      if i >= 4 {
        LooseLonger(bytes, |s|, i - 4);
        assert s[i - 4] == code[i - 4];
      }
    }
  }

  lemma LooseLonger(bytes: nat, digits: nat, i: nat)
    ensures Loose(bytes + 3, digits + 4, i + 4) == Loose(bytes, digits, i)
  {
  }

  lemma EncodeGroup(g: seq<Byte>, rest: seq<Byte>)
    requires |g| == 3
    ensures Encode(g + rest) ==
            [Digit(g[0] / 4), Digit(g[0] % 4 * 16 + g[1] / 16), Digit(g[1] % 16 * 4 + g[2] / 64), Digit(g[2] % 64)]
            + Encode(rest)
  {
    hide Digit;
    assert (g + rest)[3..] == rest;
  }

  lemma SextetDigit(c: Byte)
    requires Sextet(c).Some?
    ensures Digit(Sextet(c).value) == c && c != PAD
  {
  }

  lemma OneByte(a: nat, b: nat)
    requires a < 64 && b < 64
    ensures (a * 4 + b / 16) / 4 == a && a * 4 + b / 16 < 256
  {
  }

  lemma TwoBytes(a: nat, b: nat, c: nat)
    requires a < 64 && b < 64 && c < 64
    ensures var x, y := a * 4 + b / 16, b % 16 * 16 + c / 4; x / 4 == a && x % 4 * 16 + y / 16 == b && y < 256
  {
    OneByte(a, b);
  }

  lemma ThreeBytes(a: nat, b: nat, c: nat, d: nat)
    requires a < 64 && b < 64 && c < 64 && d < 64
    ensures var g := Group(a, b, c, d);
            && |g| == 3 && g[0] / 4 == a && g[0] % 4 * 16 + g[1] / 16 == b
            && g[1] % 16 * 4 + g[2] / 64 == c && g[2] % 64 == d
  {
    TwoBytes(a, b, c);
    Packed(b % 16, c / 4, 16);
    Packed(c % 4, d, 64);
  }
}
