/** Addresses as bytes: incrementing, masking and the broadcast test, byte by byte. */
module IpBytes {
  import opened Wrappers
  import opened Arith
  import opened Cidr
  import opened Blocks

  /** Big-endian value. */
  function Value(ip: seq<Byte>): nat {
    if ip == [] then 0 else Value(ip[..|ip| - 1]) * 256 + ip[|ip| - 1]
  }

  function Pow256(n: nat): (r: nat)
    ensures r >= 1
  {
    if n == 0 then 1 else 256 * Pow256(n - 1)
  }

  lemma {:induction false} ValueBound(ip: seq<Byte>)
    ensures Value(ip) < Pow256(|ip|)
  {
    if ip != [] {
      ValueBound(ip[..|ip| - 1]);
    }
  }

  lemma {:induction false} ValueInjective(a: seq<Byte>, b: seq<Byte>)
    requires |a| == |b| && Value(a) == Value(b)
    ensures a == b
  {
    if a != [] {
      var n := |a| - 1;
      ValueInjective(a[..n], b[..n]);
      assert a == a[..n] + [a[n]] && b == b[..n] + [b[n]];
    }
  }

  function Four(a: nat, b: nat, c: nat, d: nat): nat {
    ((a * 256 + b) * 256 + c) * 256 + d
  }

  lemma Value4(ip: seq<Byte>)
    requires |ip| == 4
    ensures Value(ip) == Four(ip[0], ip[1], ip[2], ip[3])
    ensures Value(ip) < ADDRESSES
  {
    assert ip[..3][..2] == ip[..2] && ip[..2][..1] == ip[..1] && ip[..1][..0] == [];
    assert Value(ip[..1]) == ip[0];
    assert Value(ip[..2]) == Value(ip[..1]) * 256 + ip[1];
    assert Value(ip[..3]) == Value(ip[..2]) * 256 + ip[2];
  }

  function Bytes4(a: nat): (ip: seq<Byte>)
    requires a < ADDRESSES
    ensures |ip| == 4
  {
    [a / 256 / 256 / 256, a / 256 / 256 % 256, a / 256 % 256, a % 256]
  }

  lemma Bytes4Value(a: nat)
    requires a < ADDRESSES
    ensures Value(Bytes4(a)) == a
  {
    Value4(Bytes4(a));
  }

  // ----- The 4-byte view -----

  function To4(ip: seq<Byte>): (r: Option<seq<Byte>>)
    ensures r.Some? ==> |r.value| == 4
  {
    if |ip| == 4 then Some(ip)
    else if |ip| == 16 && (forall i :: 0 <= i < 10 ==> ip[i] == 0) && ip[10] == 255 && ip[11] == 255 then Some(ip[12..])
    else None
  }

  // ----- Next address -----

  /** Adding one with carry from the last byte. */
  function Increment(ip: seq<Byte>): (r: seq<Byte>)
    ensures |r| == |ip|
  {
    if ip == [] then []
    else
      var n := |ip| - 1;
      if ip[n] == 255 then Increment(ip[..n]) + [0] else ip[..n] + [ip[n] + 1]
  }

  lemma {:induction false} IncrementValue(ip: seq<Byte>)
    ensures Value(Increment(ip)) == if Value(ip) + 1 == Pow256(|ip|) then 0 else Value(ip) + 1
  {
    if ip != [] {
      var n := |ip| - 1;
      IncrementValue(ip[..n]);
      ValueBound(ip[..n]);
      assert Increment(ip)[..n] == if ip[n] == 255 then Increment(ip[..n]) else ip[..n];
    }
  }

  lemma {:induction false} CarriedThrough(ip: seq<Byte>, i: nat)
    requires i <= |ip| && forall k :: i <= k < |ip| ==> ip[k] == 255
    ensures Increment(ip)[..i] == Increment(ip[..i]) && forall k :: i <= k < |ip| ==> Increment(ip)[k] == 0
    decreases |ip|
  {
    if i < |ip| {
      var n := |ip| - 1;
      CarriedThrough(ip[..n], i);
      assert ip[..n][..i] == ip[..i];
      assert Increment(ip)[..n] == Increment(ip[..n]);
      assert Increment(ip)[..i] == Increment(ip)[..n][..i];
    } else {
      assert ip[..i] == ip;
    }
  }

  /** One up: on the 32-bit value for IPv4 in either form, with a carry otherwise; both wrap. */
  function Next(ip: seq<Byte>): (r: seq<Byte>)
    ensures |r| == if To4(ip).Some? then 4 else |ip|
  {
    match To4(ip)
    case Some(b) => Bytes4((Value(b) + 1) % ADDRESSES)
    case None => Increment(ip)
  }

  lemma {:induction false} NextValue(ip: seq<Byte>)
    ensures To4(ip).Some? ==> Value(Next(ip)) == (Value(To4(ip).value) + 1) % ADDRESSES
    ensures To4(ip).None? ==> Value(Next(ip)) == if Value(ip) + 1 == Pow256(|ip|) then 0 else Value(ip) + 1
  {
    hide Value, Bytes4, Increment;
    match To4(ip)
    case Some(b) => Bytes4Value((Value(b) + 1) % ADDRESSES);
    case None => IncrementValue(ip);
  }

  method NextIP(ip: seq<Byte>) returns (next: seq<Byte>)
    ensures next == Next(ip)
    ensures To4(ip).Some? ==> Value(next) == (Value(To4(ip).value) + 1) % ADDRESSES
    ensures To4(ip).None? ==> Value(next) == if Value(ip) + 1 == Pow256(|ip|) then 0 else Value(ip) + 1
  {
    NextValue(ip);
    var ip4 := To4(ip);
    if ip4.Some? {
      var b := ip4.value;
      Value4(b);
      return Bytes4((Four(b[0], b[1], b[2], b[3]) + 1) % ADDRESSES);
    }
    next := CarryLoop(ip);
  }

  method CarryLoop(ip: seq<Byte>) returns (next: seq<Byte>)
    ensures next == Increment(ip)
  {
    var buf := new Byte[|ip|](i requires 0 <= i < |ip| => ip[i]);
    var i := |ip|;
    while i > 0
      invariant 0 <= i <= |ip|
      invariant forall k :: 0 <= k < i ==> buf[k] == ip[k]
      invariant forall k :: i <= k < |ip| ==> buf[k] == 0 && ip[k] == 255
    {
      i := i - 1;
      var bumped: int := buf[i];
      buf[i] := (bumped + 1) % 256;
      if buf[i] != 0 {
        CarriedThrough(ip, i + 1);
        Stopped(ip, i, buf[..]);
        return buf[..];
      }
    }
    CarriedThrough(ip, 0);
    assert buf[..] == Increment(ip);
    return buf[..];
  }

  /** Incremented at i, cleared above it: that is the increment. */
  lemma Stopped(ip: seq<Byte>, i: nat, buf: seq<Byte>)
    requires i < |ip| == |buf| && ip[i] < 255 && buf[i] == ip[i] + 1
    requires forall k :: 0 <= k < i ==> buf[k] == ip[k]
    requires forall k :: i + 1 <= k < |ip| ==> buf[k] == 0
    requires Increment(ip)[..i + 1] == Increment(ip[..i + 1])
    requires forall k :: i + 1 <= k < |ip| ==> Increment(ip)[k] == 0
    ensures buf == Increment(ip)
  {
    IncrementNoCarry(ip[..i + 1]);
    hide Increment;
    var r := Increment(ip);
    forall k | 0 <= k <= i
      ensures buf[k] == r[k]
    {
      assert r[k] == r[..i + 1][k];
    }
  }

  lemma IncrementNoCarry(ip: seq<Byte>)
    requires ip != [] && ip[|ip| - 1] < 255
    ensures forall k :: 0 <= k < |ip| - 1 ==> Increment(ip)[k] == ip[k]
    ensures Increment(ip)[|ip| - 1] == ip[|ip| - 1] + 1
  {
  }

  // ----- Bits of a byte -----

  function BitAnd(x: nat, y: nat): (r: nat)
    ensures r <= x
  {
    if x == 0 || y == 0 then 0 else 2 * BitAnd(x / 2, y / 2) + (x % 2) * (y % 2)
  }

  function BitOr(x: nat, y: nat): nat {
    if x == 0 then y else if y == 0 then x
    else 2 * BitOr(x / 2, y / 2) + (if x % 2 == 1 || y % 2 == 1 then 1 else 0)
  }

  /** Mask byte with `h` host bits, and its complement. */
  function MaskOf(h: nat): (m: Byte)
    requires h <= 8
  {
    HostBits(h);
    256 - Pow2(h)
  }

  lemma HostBits(h: nat)
    requires h <= 8
    ensures Pow2(h) <= 256
  {
    Pow2Monotone(h, 8);
    assert Pow2(8) == 256;
  }

  lemma {:induction false} AndAllOnes(x: nat, w: nat)
    requires x < Pow2(w)
    ensures BitAnd(x, Pow2(w) - 1) == x
  {
    if w > 0 {
      AndAllOnes(x / 2, w - 1);
      assert (Pow2(w) - 1) / 2 == Pow2(w - 1) - 1;
    }
  }

  /** Clearing the low h bits of a w-bit number rounds down. */
  lemma {:induction false} AndMask(x: nat, h: nat, w: nat)
    requires h <= w && x < Pow2(w) && Pow2(h) <= Pow2(w)
    ensures BitAnd(x, Pow2(w) - Pow2(h)) == Rounded(x, h)
    decreases h
  {
    hide BitAnd, Rounded;
    if h == 0 {
      AndAllOnes(x, w);
      NothingRounded(x);
    } else {
      Pow2Monotone(h - 1, w - 1);
      AndMask(x / 2, h - 1, w - 1);
      AndEven(x, Pow2(w - 1) - Pow2(h - 1));
      RoundedHalf(x, h);
    }
  }

  lemma NothingRounded(x: nat)
    ensures Rounded(x, 0) == x
  {
  }

  lemma RoundedHalf(x: nat, h: nat)
    requires h > 0
    ensures Rounded(x, h) == 2 * Rounded(x / 2, h - 1)
  {
    RoundHalf(x, Pow2(h - 1));
  }

  lemma RoundHalf(x: nat, k: nat)
    requires k > 0
    ensures x / (2 * k) * (2 * k) == 2 * (x / 2 / k * k)
  {
    HalfThenDivide(x, k);
    var q := x / (2 * k);
    assert q * (2 * k) == 2 * (q * k);
  }

  lemma {:induction false} AndEven(x: nat, y: nat)
    ensures BitAnd(x, 2 * y) == 2 * BitAnd(x / 2, y)
  {
    assert 2 * y / 2 == y && 2 * y % 2 == 0;
    if x % 2 == 1 {
      assert (x % 2) * (2 * y % 2) == 0;
    }
  }

  lemma HalfThenDivide(x: nat, k: nat)
    requires k > 0
    ensures x / 2 / k == x / (2 * k)
  {
    var q := x / 2 / k;
    DivMod(x / 2, k);
    var r := x - q * (2 * k);
    assert q * (2 * k) == 2 * (q * k);
    assert 0 <= r < 2 * k;
    DivUnique(x, q, r, 2 * k);
  }

  function Shift(q: nat, h: nat): nat {
    if h == 0 then q else 2 * Shift(q, h - 1)
  }

  lemma {:induction false} ShiftIsTimes(q: nat, h: nat)
    ensures Shift(q, h) == q * Pow2(h)
  {
    if h > 0 {
      ShiftIsTimes(q, h - 1);
      TwiceTimes(q, Pow2(h - 1));
    }
  }

  lemma TwiceTimes(q: nat, k: nat)
    ensures q * (2 * k) == 2 * (q * k)
  {
  }

  /** Setting the low h bits of a number that has them clear adds them. */
  lemma {:induction false} OrHost(q: nat, h: nat)
    ensures BitOr(Shift(q, h), Pow2(h) - 1) == Shift(q, h) + Pow2(h) - 1
  {
    if h > 0 {
      OrHost(q, h - 1);
      OrLowBit(Shift(q, h - 1), Pow2(h - 1) - 1);
    }
  }

  lemma OrLowBit(x: nat, y: nat)
    ensures BitOr(2 * x, 2 * y + 1) == 2 * BitOr(x, y) + 1
  {
    if x > 0 {
      assert 2 * x / 2 == x && (2 * y + 1) / 2 == y;
    }
  }

  /** One byte under a mask with h host bits: cleared ... */
  lemma ByteCleared(b: Byte, h: nat)
    requires h <= 8
    ensures BitAnd(b, MaskOf(h)) == b / Pow2(h) * Pow2(h)
  {
    HostBits(h);
    assert Pow2(8) == 256;
    AndMask(b, h, 8);
  }

  /** ... and filled. */
  lemma ByteFilled(b: Byte, h: nat)
    requires h <= 8
    ensures BitOr(BitAnd(b, MaskOf(h)), 255 - MaskOf(h)) == BitAnd(b, MaskOf(h)) + Pow2(h) - 1
  {
    hide BitAnd, BitOr, Shift;
    ByteCleared(b, h);
    OrHost(b / Pow2(h), h);
    ShiftIsTimes(b / Pow2(h), h);
  }

  // ----- Masks -----

  /** Host bits that fall into byte i of an address with `ones` mask bits. */
  function HostBitsOf(ones: nat, i: nat): (h: nat)
    ensures h <= 8
  {
    if 8 * (i + 1) <= ones then 0 else if 8 * i >= ones then 8 else 8 * (i + 1) - ones
  }

  function MaskIP(ip: seq<Byte>, ones: nat): (r: seq<Byte>)
    ensures |r| == |ip|
  {
    seq(|ip|, i requires 0 <= i < |ip| => BitAnd(ip[i], MaskOf(HostBitsOf(ones, i))))
  }

  /** The number with its low h bits cleared. */
  function Rounded(x: nat, h: nat): nat {
    RoundedDown(x, Pow2(h));
    x / Pow2(h) * Pow2(h)
  }

  lemma RoundedFacts(x: nat, h: nat)
    ensures Rounded(x, h) <= x < Rounded(x, h) + Pow2(h) && Rounded(x, h) % Pow2(h) == 0
  {
    RoundedDown(x, Pow2(h));
  }

  lemma RoundedUnique(x: nat, base: nat, h: nat)
    requires base % Pow2(h) == 0 && base <= x < base + Pow2(h)
    ensures Rounded(x, h) == base
  {
    var k := Pow2(h);
    DivMod(base, k);
    DivUnique(x, base / k, x - base, k);
  }

  lemma Regrouped(x: nat, y: nat, z: nat)
    ensures x * (y * z) == x * y * z
  {
  }

  lemma Spread(x: nat, y: nat, z: nat)
    ensures (x + y) * z == x * z + y * z
  {
  }

  /** Rounding inside the last byte ... */
  lemma RoundLow(v: nat, b: Byte, h: nat)
    requires h <= 8
    ensures Rounded(v * 256 + b, h) == v * 256 + Rounded(b, h)
  {
    var k, m := Pow2(h), Pow2(8 - h);
    Pow2Add(8 - h, h);
    assert Pow2(8) == 256;
    Regrouped(v, m, k);
    DivAdd(v * m, b, k);
    Spread(v * m, b / k, k);
  }

  /** ... and beyond it. */
  lemma RoundHigh(v: nat, b: Byte, h: nat)
    ensures Rounded(v * 256 + b, h + 8) == Rounded(v, h) * 256
  {
    var k, q := Pow2(h), v / Pow2(h);
    Pow2Add(h, 8);
    assert Pow2(8) == 256;
    DivMod(v, k);
    var r := (v - q * k) * 256 + b;
    assert q * (k * 256) == q * k * 256;
    DivUnique(v * 256 + b, q, r, k * 256);
  }

  lemma ValueSnoc(s: seq<Byte>, b: Byte)
    ensures Value(s + [b]) == Value(s) * 256 + b
  {
    assert (s + [b])[..|s|] == s;
  }

  lemma MaskSnoc(ip: seq<Byte>, ones: nat)
    requires ip != []
    ensures var n := |ip| - 1;
            MaskIP(ip, ones) == MaskIP(ip[..n], ones) + [BitAnd(ip[n], MaskOf(HostBitsOf(ones, n)))]
  {
  }

  lemma WholeByte(b: Byte)
    ensures BitAnd(b, MaskOf(0)) == b && BitAnd(b, MaskOf(8)) == 0
  {
    ByteCleared(b, 0);
  }

  lemma FullMask(ip: seq<Byte>, ones: nat)
    requires ones >= 8 * |ip|
    ensures MaskIP(ip, ones) == ip
  {
    forall i | 0 <= i < |ip|
      ensures MaskIP(ip, ones)[i] == ip[i]
    {
      WholeByte(ip[i]);
    }
  }

  /** Byte-wise masking clears the host bits of the value. */
  lemma {:induction false} MaskIPValue(ip: seq<Byte>, ones: nat)
    requires ones <= 8 * |ip|
    ensures Value(MaskIP(ip, ones)) == Rounded(Value(ip), 8 * |ip| - ones)
  {
    hide BitAnd, MaskOf, MaskIP, Rounded;
    if ip == [] {
      EmptyMask();
    } else {
      var n := |ip| - 1;
      var v, b := Value(ip[..n]), ip[n];
      MaskSnoc(ip, ones);
      ValueSnoc(MaskIP(ip[..n], ones), BitAnd(b, MaskOf(HostBitsOf(ones, n))));
      if ones >= 8 * n {
        FullMask(ip[..n], ones);
        ByteRounded(b, 8 * (n + 1) - ones);
        RoundLow(v, b, 8 * (n + 1) - ones);
      } else {
        MaskIPValue(ip[..n], ones);
        WholeByte(b);
        RoundHigh(v, b, 8 * n - ones);
      }
    }
  }

  lemma EmptyMask()
    ensures Value(MaskIP([], 0)) == Rounded(Value([]), 0)
  {
    assert MaskIP([], 0) == [];
  }

  lemma ByteRounded(b: Byte, h: nat)
    requires h <= 8
    ensures BitAnd(b, MaskOf(h)) == Rounded(b, h)
  {
    ByteCleared(b, h);
  }

  lemma ByteRoom(b: Byte, h: nat)
    requires h <= 8
    ensures Rounded(b, h) + Pow2(h) <= 256
  {
    HostBits(h);
    Pow2Add(8 - h, h);
    assert Pow2(8) == 256;
    RoundedFacts(b, h);
    RoomForOne(Rounded(b, h), Pow2(8 - h), Pow2(h));
  }

  /** Network byte with its host bits set. */
  function FilledByte(b: Byte, h: nat): (r: Byte)
    requires h <= 8
    ensures r == Rounded(b, h) + Pow2(h) - 1
  {
    ByteFilled(b, h);
    ByteRounded(b, h);
    ByteRoom(b, h);
    BitOr(BitAnd(b, MaskOf(h)), 255 - MaskOf(h))
  }

  function FilledIP(ip: seq<Byte>, ones: nat): (r: seq<Byte>)
    ensures |r| == |ip|
  {
    seq(|ip|, i requires 0 <= i < |ip| => FilledByte(ip[i], HostBitsOf(ones, i)))
  }

  lemma FilledSnoc(ip: seq<Byte>, ones: nat)
    requires ip != []
    ensures var n := |ip| - 1; FilledIP(ip, ones) == FilledIP(ip[..n], ones) + [FilledByte(ip[n], HostBitsOf(ones, n))]
  {
  }

  lemma FullFilled(ip: seq<Byte>, ones: nat)
    requires ones >= 8 * |ip|
    ensures FilledIP(ip, ones) == ip
  {
    forall i | 0 <= i < |ip|
      ensures FilledIP(ip, ones)[i] == ip[i]
    {
      assert Pow2(0) == 1;
    }
  }

  /** Setting every host bit gives the last address of the block. */
  lemma {:induction false} FilledValue(ip: seq<Byte>, ones: nat)
    requires ones <= 8 * |ip|
    ensures Value(FilledIP(ip, ones)) == Rounded(Value(ip), 8 * |ip| - ones) + Pow2(8 * |ip| - ones) - 1
  {
    hide FilledIP, FilledByte, Rounded;
    if ip == [] {
      EmptyFilled();
    } else {
      var n := |ip| - 1;
      var v, b := Value(ip[..n]), ip[n];
      FilledSnoc(ip, ones);
      ValueSnoc(FilledIP(ip[..n], ones), FilledByte(b, HostBitsOf(ones, n)));
      if ones >= 8 * n {
        FullFilled(ip[..n], ones);
        RoundLow(v, b, 8 * (n + 1) - ones);
      } else {
        FilledValue(ip[..n], ones);
        RoundHigh(v, b, 8 * n - ones);
        AllHost(b);
        Pow2Add(8 * n - ones, 8);
      }
    }
  }

  lemma EmptyFilled()
    ensures Value(FilledIP([], 0)) == Rounded(Value([]), 0) + Pow2(0) - 1
  {
    assert FilledIP([], 0) == [];
  }

  lemma AllHost(b: Byte)
    ensures Rounded(b, 8) == 0 && Pow2(8) == 256
  {
    assert Pow2(8) == 256;
  }

  /** Mask bits that apply to the 4-byte form of an IPv4 subnet. */
  function Ones4(net: seq<Byte>, ones: nat): (r: nat)
    requires To4(net).Some? && ones <= 8 * |net|
    ensures r <= 32
  {
    if |net| == 4 then ones else if ones >= 96 then ones - 96 else 0
  }

  /** They are the last four bytes of a longer mask. */
  lemma LastFourOfMask(net: seq<Byte>, ones: nat, i: nat)
    requires To4(net).Some? && ones <= 8 * |net| && i < 4
    ensures |net| == 16 ==> MaskOf(HostBitsOf(Ones4(net, ones), i)) == MaskOf(HostBitsOf(ones, 12 + i))
  {
    hide MaskOf;
  }

  /** Containment as the library tests it: addresses of one kind, equal under the mask. */
  predicate ContainsIP(net: seq<Byte>, ones: nat, ip: seq<Byte>)
    requires ones <= 8 * |net|
  {
    match (To4(net), To4(ip))
    case (Some(n), Some(a)) => MaskIP(n, Ones4(net, ones)) == MaskIP(a, Ones4(net, ones))
    case (None, None) => |net| == |ip| && MaskIP(net, ones) == MaskIP(ip, ones)
    case _ => false
  }

  lemma SameMasked(a: seq<Byte>, b: seq<Byte>, ones: nat)
    requires |a| == |b| && ones <= 8 * |a|
    ensures MaskIP(a, ones) == MaskIP(b, ones) <==>
            Rounded(Value(a), 8 * |a| - ones) == Rounded(Value(b), 8 * |a| - ones)
  {
    hide MaskIP, Value, Rounded;
    MaskIPValue(a, ones);
    MaskIPValue(b, ones);
    if Value(MaskIP(a, ones)) == Value(MaskIP(b, ones)) {
      ValueInjective(MaskIP(a, ones), MaskIP(b, ones));
    }
  }

  lemma ContainsIPValue(net: seq<Byte>, ones: nat, ip: seq<Byte>)
    requires To4(net).Some? && To4(ip).Some? && ones <= 8 * |net|
    ensures ContainsIP(net, ones, ip) <==> Contains(Value(To4(net).value), Ones4(net, ones), Value(To4(ip).value))
  {
    hide MaskIP;
    SameMasked(To4(net).value, To4(ip).value, Ones4(net, ones));
  }

  /** The last address of an IPv4 subnet; no IPv6 address is one. */
  predicate Broadcast(ip: seq<Byte>, net: seq<Byte>, ones: nat)
    requires ones <= 8 * |net|
  {
    && To4(ip).Some? && To4(net).Some?
    && Value(To4(ip).value) == Masked(Value(To4(net).value), Ones4(net, ones)) + Size(Ones4(net, ones)) - 1
  }

  method IsBroadcast(ip: seq<Byte>, net: seq<Byte>, ones: nat) returns (b: bool)
    requires ones <= 8 * |net|
    ensures b == Broadcast(ip, net, ones)
  {
    var ip4, network := To4(ip), To4(net);
    if ip4.None? || network.None? {
      return false;
    }
    var mask := Ones4(net, ones);
    FilledEquals(ip4.value, network.value, mask);
    b := EqualsFilled(ip4.value, network.value, mask);
  }

  method EqualsFilled(ip: seq<Byte>, net: seq<Byte>, ones: nat) returns (b: bool)
    requires |ip| == |net|
    ensures b <==> ip == FilledIP(net, ones)
  {
    hide FilledByte;
    for i := 0 to |ip|
      invariant forall j :: 0 <= j < i ==> ip[j] == FilledIP(net, ones)[j]
    {
      if ip[i] != FilledByte(net[i], HostBitsOf(ones, i)) {
        return false;
      }
    }
    return true;
  }

  lemma FilledEquals(ip: seq<Byte>, net: seq<Byte>, ones: nat)
    requires |ip| == |net| == 4 && ones <= 32
    ensures ip == FilledIP(net, ones) <==> Value(ip) == Masked(Value(net), ones) + Size(ones) - 1
  {
    hide FilledIP, Value;
    FilledValue(net, ones);
    if Value(ip) == Value(FilledIP(net, ones)) {
      ValueInjective(ip, FilledIP(net, ones));
    }
  }

  // ----- First usable address -----

  method FirstUsableIP(net: seq<Byte>, ones: nat) returns (ip: seq<Byte>)
    requires ones <= 8 * |net|
    ensures ip == Next(MaskIP(net, ones))
    ensures |net| == 4 ==> Value(ip) == (Masked(Value(net), ones) + 1) % ADDRESSES
    ensures To4(MaskIP(net, ones)).None? ==>
              var v := Rounded(Value(net), 8 * |net| - ones) + 1;
              Value(ip) == if v == Pow256(|net|) then 0 else v
  {
    MaskIPValue(net, ones);
    ip := NextIP(MaskIP(net, ones));
  }

  lemma FirstUsable4(a: nat, ones: nat)
    requires a < ADDRESSES && ones <= 32
    ensures Value(Next(MaskIP(Bytes4(a), ones))) == (Masked(a, ones) + 1) % ADDRESSES
  {
    hide Value, MaskIP, Bytes4;
    Bytes4Value(a);
    MaskIPValue(Bytes4(a), ones);
    NextValue(MaskIP(Bytes4(a), ones));
  }

  lemma LastByteAligned(b: Byte, h: nat)
    requires 2 <= h <= 8
    ensures BitAnd(b, MaskOf(h)) % 4 == 0 && BitAnd(b, MaskOf(h)) <= 252
  {
    hide BitAnd, MaskOf;
    ByteCleared(b, h);
    RoundedDown(b, Pow2(h));
    Pow2Add(2, h - 2);
    assert Pow2(2) == 4;
    MultipleOfFactor(b / Pow2(h) * Pow2(h), 4, Pow2(h - 2));
  }

  lemma BumpLast(ip: seq<Byte>)
    requires |ip| == 4 && ip[3] < 255
    ensures Value(ip[3 := ip[3] + 1]) == Value(ip) + 1 == (Value(ip) + 1) % ADDRESSES
  {
    Value4(ip);
    Value4(ip[3 := ip[3] + 1]);
  }

  lemma BumpedAddress(a: nat, ones: nat)
    requires a < ADDRESSES && 16 <= ones <= 30
    ensures var base := MaskIP(Bytes4(a), ones);
            base[3] <= 252 && Value(base[3 := base[3] + 1]) == (Masked(a, ones) + 1) % ADDRESSES
  {
    var ip := Bytes4(a);
    LastByteAligned(ip[3], HostBitsOf(ones, 3));
    BumpLast(MaskIP(ip, ones));
    MaskIPValue(ip, ones);
    Bytes4Value(a);
  }

  /** The exporter adds one to the last octet only.  On every subnet the server accepts that
      never carries, and is the first usable address, which the interface is given. */
  lemma ExportedAddress(cidr: string)
    requires IsValidPrivateCIDR(cidr)
    ensures var (a, ones) := ParseCIDR4(cidr).value;
            var base := MaskIP(Bytes4(a), ones);
            base[3] <= 252 && base[3 := base[3] + 1] == Next(base)
  {
    hide ParseCIDR4, MaskIP, Bytes4, Value, Next, PrivateOctets;
    var (a, ones) := ParseCIDR4(cidr).value;
    var base := MaskIP(Bytes4(a), ones);
    BumpedAddress(a, ones);
    FirstUsable4(a, ones);
    NextLength(base);
    ValueInjective(base[3 := base[3] + 1], Next(base));
  }

  lemma NextLength(ip: seq<Byte>)
    requires |ip| == 4
    ensures |Next(ip)| == 4
  {
  }
}
