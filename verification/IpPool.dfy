/**
 The walk by which a free address is looked for in a subnet, on bytes as the code takes it,
 and which address it finds, as numbers: for IPv4 in either byte form, without any mask bit,
 and for IPv6.
 */
module IpPool {
  import opened Wrappers
  import opened Arith
  import opened Cidr
  import opened Blocks
  import opened IpBytes

  // ----- Which address comes next -----

  /** The first untaken address from `from` up, below the broadcast address `end - 1`. */
  function NextFree(end: nat, taken: set<nat>, from: nat): Option<nat>
    decreases end - from
  {
    if from + 1 >= end then None
    else if from !in taken then Some(from)
    else NextFree(end, taken, from + 1)
  }

  lemma SkipTaken(end: nat, taken: set<nat>, from: nat)
    requires from in taken && from + 1 < end
    ensures NextFree(end, taken, from) == NextFree(end, taken, from + 1)
  {
  }

  /** It is the least one, and None means that there is none. */
  lemma {:induction false} NextFreeIsLeast(end: nat, taken: set<nat>, from: nat)
    ensures match NextFree(end, taken, from)
            case Some(a) => from <= a && a + 1 < end && a !in taken && forall x :: from <= x < a ==> x in taken
            case None => forall x :: from <= x && x + 1 < end ==> x in taken
    decreases end - from
  {
    if from + 1 < end && from in taken {
      NextFreeIsLeast(end, taken, from + 1);
    }
  }

  // ----- Used texts and taken addresses -----

  /** The IPv4 addresses whose text is marked used. */
  function TakenOf(used: set<string>): set<nat> {
    set a: nat | 0 <= a < ADDRESSES && PrintIPv4(a) in used
  }

  lemma TakenAdd(used: set<string>, a: nat)
    requires a < ADDRESSES
    ensures TakenOf(used + {PrintIPv4(a)}) == TakenOf(used) + {a}
  {
    forall x: nat | x < ADDRESSES && PrintIPv4(x) == PrintIPv4(a)
      ensures x == a
    {
      PrintIPv4Injective(x, a);
    }
  }

  lemma TakenRemove(used: set<string>, a: nat)
    requires a < ADDRESSES
    ensures TakenOf(used - {PrintIPv4(a)}) == TakenOf(used) - {a}
  {
    forall x: nat | x < ADDRESSES && PrintIPv4(x) == PrintIPv4(a)
      ensures x == a
    {
      PrintIPv4Injective(x, a);
    }
  }

  // ----- The pool and the walk -----

  /** A subnet, the texts of its used addresses, and how the library prints the addresses
      that have no 4-byte form. */
  datatype Pool = Pool(base: seq<Byte>, ones: nat, used: set<string>, print6: seq<Byte> -> string)

  predicate ValidPool(p: Pool) {
    (|p.base| == 4 || |p.base| == 16) && p.ones <= 8 * |p.base| && MaskIP(p.base, p.ones) == p.base
  }

  function Show(ip: seq<Byte>, print6: seq<Byte> -> string): string {
    match To4(ip)
    case Some(b) => Value4(b); PrintIPv4(Value(b))
    case None => print6(ip)
  }

  /** The k-th address looked at. */
  function At(p: Pool, k: nat): seq<Byte> {
    if k == 0 then Next(Next(p.base)) else Next(At(p, k - 1))
  }

  predicate Inside(p: Pool, k: nat)
    requires p.ones <= 8 * |p.base|
  {
    ContainsIP(p.base, p.ones, At(p, k))
  }

  predicate Grantable(p: Pool, k: nat)
    requires p.ones <= 8 * |p.base|
  {
    !Broadcast(At(p, k), p.base, p.ones) && Show(At(p, k), p.print6) !in p.used
  }

  predicate Stops(p: Pool, k: nat)
    requires p.ones <= 8 * |p.base|
  {
    !Inside(p, k) || Grantable(p, k)
  }

  /** The walk comes to an end. */
  ghost predicate Ends(p: Pool)
    requires p.ones <= 8 * |p.base|
  {
    exists k: nat :: Stops(p, k)
  }

  /** It ends at the k-th address, with this result. */
  ghost predicate Found(p: Pool, k: nat, r: Option<seq<Byte>>)
    requires p.ones <= 8 * |p.base|
  {
    && (forall j: nat :: j < k ==> !Stops(p, j)) && Stops(p, k)
    && r == if Inside(p, k) then Some(At(p, k)) else None
  }

  function Number(r: Option<seq<Byte>>): Option<nat> {
    match r
    case None => None
    case Some(ip) => Some(Value(ip))
  }

  // ----- IPv4 -----

  predicate Is4(p: Pool) {
    To4(p.base).Some?
  }

  function Base4(p: Pool): nat
    requires Is4(p)
  {
    Value(To4(p.base).value)
  }

  function Bits4(p: Pool): (n: nat)
    requires ValidPool(p) && Is4(p)
    ensures n <= 32
  {
    Ones4(p.base, p.ones)
  }

  lemma OddByte(h: nat)
    requires 1 <= h <= 8
    ensures Rounded(255, h) != 255
  {
    RoundedFacts(255, h);
    if Rounded(255, h) == 255 {
      MultipleOfFactor(255, 2, Pow2(h - 1));
    }
  }

  /** A masked subnet whose base has a 4-byte form keeps at least the bits of that form. */
  lemma LongForm(p: Pool)
    requires ValidPool(p) && Is4(p) && |p.base| == 16
    ensures p.ones >= 96 && MaskIP(p.base[12..], p.ones - 96) == p.base[12..]
  {
    hide BitAnd, MaskOf;
    var h := HostBitsOf(p.ones, 11);
    ByteRounded(255, h);
    assert MaskIP(p.base, p.ones)[11] == 255;
    if h > 0 {
      OddByte(h);
    }
    var low := p.base[12..];
    forall i | 0 <= i < |low|
      ensures MaskIP(low, p.ones - 96)[i] == low[i]
    {
      assert MaskIP(p.base, p.ones)[12 + i] == p.base[12 + i];
      assert HostBitsOf(p.ones, 12 + i) == HostBitsOf(p.ones - 96, i);
    }
  }

  lemma Base4Facts(p: Pool)
    requires ValidPool(p) && Is4(p)
    ensures Base4(p) % Size(Bits4(p)) == 0 && Base4(p) + Size(Bits4(p)) <= ADDRESSES
    ensures Masked(Base4(p), Bits4(p)) == Base4(p)
  {
    hide MaskIP, Rounded, Value;
    var b := To4(p.base).value;
    if |p.base| == 16 {
      LongForm(p);
    }
    MaskIPValue(b, Bits4(p));
    RoundedFacts(Value(b), 32 - Bits4(p));
    Value4(b);
    BlockFits(Value(b), Bits4(p));
    MaskedUnique(Value(b), Value(b), Bits4(p));
  }

  lemma WrapFacts(x: nat)
    ensures x < ADDRESSES ==> x % ADDRESSES == x
    ensures (x % ADDRESSES + 1) % ADDRESSES == (x + 1) % ADDRESSES
  {
  }

  lemma Reduced(x: nat)
    ensures 0 <= x % ADDRESSES < ADDRESSES
  {
  }

  lemma WrapAgain(x: nat)
    ensures (x + ADDRESSES) % ADDRESSES == x % ADDRESSES
  {
  }

  lemma NextOf4(x: nat)
    ensures Next(Bytes4(x % ADDRESSES)) == Bytes4((x + 1) % ADDRESSES)
  {
    hide Bytes4, Value;
    Bytes4Value(x % ADDRESSES);
    WrapFacts(x);
  }

  lemma {:induction false} At4(p: Pool, k: nat)
    requires Is4(p)
    ensures At(p, k) == Bytes4((Base4(p) + 2 + k) % ADDRESSES)
  {
    hide Bytes4;
    if k == 0 {
      NextOf4(Base4(p) + 1);
    } else {
      At4(p, k - 1);
      NextOf4(Base4(p) + 1 + k);
    }
  }

  /** The two tests at the k-th address, as numbers. */
  lemma Tests4(p: Pool, k: nat)
    requires ValidPool(p) && Is4(p)
    ensures var x := (Base4(p) + 2 + k) % ADDRESSES;
            && (Inside(p, k) <==> Contains(Base4(p), Bits4(p), x))
            && (Grantable(p, k) <==> x != Base4(p) + Size(Bits4(p)) - 1 && x !in TakenOf(p.used))
            && (Inside(p, k) ==> |At(p, k)| == 4 && Value(At(p, k)) == x)
  {
    hide Bytes4, Value, Contains, At, MaskIP, PrintIPv4, Masked;
    var x := (Base4(p) + 2 + k) % ADDRESSES;
    At4(p, k);
    Bytes4Value(x);
    Base4Facts(p);
    ContainsIPValue(p.base, p.ones, At(p, k));
  }

  lemma HalfAtMost(ones: nat)
    requires 1 <= ones <= 32
    ensures 2 * Size(ones) <= ADDRESSES
  {
    SizeDivides(ones - 1);
  }

  /** With a mask bit the walk leaves the block at its end, also where addresses wrap past
      the top. */
  lemma LeavesBlock(base: nat, ones: nat, at: nat)
    requires 1 <= ones <= 32 && base < ADDRESSES && base % Size(ones) == 0
    requires base + 2 <= at && (at <= base + Size(ones) || at == base + 2)
    ensures Contains(base, ones, at % ADDRESSES) <==> at < base + Size(ones)
  {
    hide Contains, Size;
    BlockFits(base, ones);
    HalfAtMost(ones);
    WrapOnce(at);
    ContainsIsRange(base, ones, at % ADDRESSES);
  }

  lemma WrapOnce(x: nat)
    requires x < 2 * ADDRESSES
    ensures x % ADDRESSES == if x < ADDRESSES then x else x - ADDRESSES
  {
  }

  /** Inside or not at the k-th address, reached by staying inside. */
  lemma Inside4(p: Pool, k: nat)
    requires ValidPool(p) && Is4(p) && Bits4(p) >= 1
    requires k == 0 || Base4(p) + 2 + k <= Base4(p) + Size(Bits4(p))
    ensures Inside(p, k) <==> Base4(p) + 2 + k < Base4(p) + Size(Bits4(p))
  {
    hide Contains;
    Tests4(p, k);
    Base4Facts(p);
    LeavesBlock(Base4(p), Bits4(p), Base4(p) + 2 + k);
  }

  lemma {:induction false} Walk4(p: Pool, k: nat)
    requires ValidPool(p) && Is4(p) && Bits4(p) >= 1 && forall j: nat :: j < k ==> !Stops(p, j)
    ensures k == 0 || 2 + k <= Size(Bits4(p))
    ensures var end, taken, b := Base4(p) + Size(Bits4(p)), TakenOf(p.used), Base4(p);
            NextFree(end, taken, b + 2) == NextFree(end, taken, b + 2 + k)
  {
    hide TakenOf, Inside, Grantable, Contains;
    if k > 0 {
      Walk4(p, k - 1);
      assert !Stops(p, k - 1);
      Inside4(p, k - 1);
      Tests4(p, k - 1);
      Base4Facts(p);
      WrapFacts(Base4(p) + 1 + k);
    }
  }

  /** With a mask bit the walk finds the least untaken address above the server, if any. */
  lemma Found4(p: Pool, k: nat, r: Option<seq<Byte>>)
    requires ValidPool(p) && Is4(p) && Bits4(p) >= 1 && Found(p, k, r)
    ensures Number(r) == NextFree(Base4(p) + Size(Bits4(p)), TakenOf(p.used), Base4(p) + 2)
  {
    hide TakenOf, Inside, Grantable, Contains;
    Walk4(p, k);
    Inside4(p, k);
    Tests4(p, k);
    Base4Facts(p);
    WrapFacts(Base4(p) + 2 + k);
  }

  lemma Ends4(p: Pool)
    requires ValidPool(p) && Is4(p) && Bits4(p) >= 1
    ensures Ends(p)
  {
    hide Inside;
    var k := if Size(Bits4(p)) >= 2 then Size(Bits4(p)) - 2 else 0;
    Inside4(p, k);
    assert Stops(p, k);
  }

  // ----- No mask bit -----

  /** Nothing is outside a subnet without a mask bit: only a grant ends the walk. */
  lemma NeverOutside(p: Pool, k: nat)
    requires ValidPool(p) && Is4(p) && Bits4(p) == 0
    ensures Base4(p) == 0 && Inside(p, k)
    ensures Grantable(p, k) <==> (2 + k) % ADDRESSES != ADDRESSES - 1 && (2 + k) % ADDRESSES !in TakenOf(p.used)
    ensures Value(At(p, k)) == (2 + k) % ADDRESSES
  {
    hide TakenOf, Inside, Grantable, At, MaskIP, To4, Masked, Value;
    Base4Facts(p);
    Pow2At32();
    Tests4(p, k);
    Reduced(2 + k);
    MaskedUnique((2 + k) % ADDRESSES, 0, 0);
    MaskedUnique(0, 0, 0);
  }

  /** So it ends exactly when some address other than the broadcast address is untaken. */
  lemma EndsZeroExactly(p: Pool)
    requires ValidPool(p) && Is4(p) && Bits4(p) == 0
    ensures Ends(p) <==> exists x: nat :: x + 1 < ADDRESSES && x !in TakenOf(p.used)
  {
    hide TakenOf, Inside, Grantable, At, MaskIP, To4;
    if Ends(p) {
      var k: nat :| Stops(p, k);
      NeverOutside(p, k);
      Reduced(2 + k);
      assert (2 + k) % ADDRESSES + 1 < ADDRESSES;
    }
    if x: nat :| x + 1 < ADDRESSES && x !in TakenOf(p.used) {
      var k := if x >= 2 then x - 2 else x + ADDRESSES - 2;
      NeverOutside(p, k);
      WrapFacts(x);
      WrapAgain(x);
      assert Stops(p, k);
    }
  }

  /** Past the top the walk comes to the network and the server address. */
  function FreeZero(taken: set<nat>): Option<nat> {
    var r := NextFree(ADDRESSES, taken, 2);
    if r.Some? then r else if 0 !in taken then Some(0) else if 1 !in taken then Some(1) else None
  }

  lemma {:induction false} WalkZero(p: Pool, k: nat)
    requires ValidPool(p) && Is4(p) && Bits4(p) == 0 && k + 2 <= ADDRESSES
    requires forall j: nat :: j < k ==> !Stops(p, j)
    ensures NextFree(ADDRESSES, TakenOf(p.used), 2) == NextFree(ADDRESSES, TakenOf(p.used), 2 + k)
  {
    hide TakenOf, Inside, Grantable, At, MaskIP, To4;
    if k > 0 {
      WalkZero(p, k - 1);
      assert !Stops(p, k - 1);
      NeverOutside(p, k - 1);
      WrapFacts(1 + k);
    }
  }

  /** One turn through all addresses, and the walk repeats itself. */
  lemma Repeats(p: Pool, k: nat)
    requires ValidPool(p) && Is4(p) && Bits4(p) == 0
    ensures Stops(p, k + ADDRESSES) <==> Stops(p, k)
  {
    hide TakenOf, Inside, Grantable, At, MaskIP, To4;
    NeverOutside(p, k);
    NeverOutside(p, k + ADDRESSES);
    WrapAgain(2 + k);
  }

  lemma FoundZero(p: Pool, k: nat, r: Option<seq<Byte>>)
    requires ValidPool(p) && Is4(p) && Bits4(p) == 0 && Found(p, k, r)
    ensures Number(r) == FreeZero(TakenOf(p.used)) && r.Some?
  {
    hide TakenOf, Inside, Grantable, At, MaskIP, To4;
    NeverOutside(p, k);
    if k >= ADDRESSES {
      Repeats(p, k - ADDRESSES);
      assert false;
    }
    WrapFacts(2 + k);
    if k + 2 < ADDRESSES {
      WalkZero(p, k);
    } else {
      WalkZero(p, ADDRESSES - 2);
      WrapAgain(0);
      WrapAgain(1);
      NeverOutside(p, ADDRESSES - 2);
      if k == ADDRESSES - 1 {
        assert !Stops(p, ADDRESSES - 2);
      }
    }
  }

  // ----- IPv6 -----

  /** Where the addresses with a 4-byte form begin. */
  const MAPPED: nat := 0xFFFF_0000_0000

  lemma {:induction false} ValueSplit(a: seq<Byte>, b: seq<Byte>)
    ensures Value(a + b) == Value(a) * Pow256(|b|) + Value(b)
  {
    if b == [] {
      assert a + b == a;
    } else {
      var n := |b| - 1;
      ValueSplit(a, b[..n]);
      assert a + b == a + b[..n] + [b[n]];
      ValueSnoc(a + b[..n], b[n]);
      Spread(Value(a) * Pow256(n), Value(b[..n]), 256);
      Regrouped(Value(a), Pow256(n), 256);
    }
  }

  lemma {:induction false} ZerosValue(s: seq<Byte>)
    requires forall i :: 0 <= i < |s| ==> s[i] == 0
    ensures Value(s) == 0
  {
    if s != [] {
      ZerosValue(s[..|s| - 1]);
    }
  }

  const MAPPED_PREFIX: seq<Byte> := [0, 0, 0, 0, 0, 0, 0, 0, 0, 0, 255, 255]

  lemma PrefixValue()
    ensures Value(MAPPED_PREFIX) == 0xFFFF
  {
    var s := MAPPED_PREFIX;
    ZerosValue(s[..10]);
    ValueSnoc(s[..10], 255);
    ValueSnoc(s[..11], 255);
    assert s[..11] == s[..10] + [255] && s == s[..11] + [255];
  }

  lemma MappedRange(ip: seq<Byte>)
    requires |ip| == 16
    ensures To4(ip).Some? <==> MAPPED <= Value(ip) < MAPPED + ADDRESSES
  {
    hide Value, To4;
    var hi, lo := ip[..12], ip[12..];
    assert ip == hi + lo;
    ValueSplit(hi, lo);
    Value4(lo);
    assert Pow256(4) == ADDRESSES;
    PrefixValue();
    MappedBytes(ip);
    if Value(hi) == 0xFFFF {
      ValueInjective(hi, MAPPED_PREFIX);
    }
  }

  lemma MappedBytes(ip: seq<Byte>)
    requires |ip| == 16
    ensures To4(ip).Some? <==> ip[..12] == MAPPED_PREFIX
  {
    var hi := ip[..12];
    assert forall i :: 0 <= i < 12 ==> hi[i] == ip[i];
    if To4(ip).Some? {
      assert hi == MAPPED_PREFIX;
    }
  }

  function BytesOf(n: nat, v: nat): (ip: seq<Byte>)
    ensures |ip| == n
  {
    if n == 0 then [] else BytesOf(n - 1, v / 256) + [v % 256]
  }

  lemma {:induction false} BytesOfValue(ip: seq<Byte>)
    ensures BytesOf(|ip|, Value(ip)) == ip
  {
    if ip != [] {
      var n := |ip| - 1;
      BytesOfValue(ip[..n]);
      DivUnique(Value(ip), Value(ip[..n]), ip[n], 256);
    }
  }

  lemma {:induction false} Pow256Is(n: nat)
    ensures Pow256(n) == Pow2(8 * n)
  {
    if n > 0 {
      Pow256Is(n - 1);
      Pow2Add(8, 8 * (n - 1));
      assert Pow2(8) == 256;
    }
  }

  function Base6(p: Pool): nat {
    Value(p.base)
  }

  function Top6(p: Pool): nat
    requires p.ones <= 128
  {
    Value(p.base) + Pow2(128 - p.ones)
  }

  /** Where the walk ends at the latest: at the end of the block, or where the next address
      has a 4-byte form and so is taken for one outside. */
  function Limit6(p: Pool): nat
    requires p.ones <= 128
  {
    if Base6(p) <= MAPPED < Top6(p) then MAPPED else Top6(p)
  }

  function Taken6(p: Pool): set<nat> {
    set v: nat | 0 <= v < Pow256(16) && p.print6(BytesOf(16, v)) in p.used
  }

  lemma Block6(p: Pool)
    requires ValidPool(p) && !Is4(p)
    ensures |p.base| == 16 && Base6(p) % Pow2(128 - p.ones) == 0 && Top6(p) <= Pow256(16)
    ensures Base6(p) < MAPPED || Base6(p) >= MAPPED + ADDRESSES
  {
    hide MaskIP, Value, Rounded;
    MaskIPValue(p.base, p.ones);
    RoundedFacts(Value(p.base), 128 - p.ones);
    ValueBound(p.base);
    Pow256Is(16);
    Pow2Add(p.ones, 128 - p.ones);
    RoomForOne(Value(p.base), Pow2(p.ones), Pow2(128 - p.ones));
    MappedRange(p.base);
  }

  lemma In6(p: Pool, ip: seq<Byte>)
    requires ValidPool(p) && !Is4(p) && |ip| == 16
    ensures ContainsIP(p.base, p.ones, ip) <==> To4(ip).None? && Base6(p) <= Value(ip) < Top6(p)
  {
    hide MaskIP, Value, Rounded, To4, Pow2, Pow256;
    Block6(p);
    var h := 128 - p.ones;
    SameMasked(p.base, ip, p.ones);
    RoundedUnique(Value(p.base), Value(p.base), h);
    RoundedFacts(Value(ip), h);
    if Base6(p) <= Value(ip) < Top6(p) {
      RoundedUnique(Value(ip), Value(p.base), h);
    }
  }

  lemma Below6(p: Pool, ip: seq<Byte>)
    requires ValidPool(p) && !Is4(p) && |ip| == 16 && Base6(p) <= Value(ip) < Limit6(p)
    ensures To4(ip).None? && ContainsIP(p.base, p.ones, ip)
  {
    hide Value, To4, ContainsIP;
    Block6(p);
    MappedRange(ip);
    In6(p, ip);
  }

  lemma UpFrom6(p: Pool, ip: seq<Byte>)
    requires ValidPool(p) && !Is4(p) && |ip| == 16 && Base6(p) <= Value(ip) && Value(ip) + 1 < Limit6(p)
    ensures |Next(ip)| == 16 && Value(Next(ip)) == Value(ip) + 1
  {
    hide Value, To4, ContainsIP, Next;
    Block6(p);
    Below6(p, ip);
    NextValue(ip);
  }

  lemma {:induction false} At6(p: Pool, k: nat)
    requires ValidPool(p) && !Is4(p) && Base6(p) + 2 + k < Limit6(p)
    ensures |At(p, k)| == 16 && Value(At(p, k)) == Base6(p) + 2 + k
  {
    hide Value, To4, ContainsIP, Next, Limit6, Top6;
    if k == 0 {
      Block6(p);
      UpFrom6(p, p.base);
      UpFrom6(p, Next(p.base));
    } else {
      At6(p, k - 1);
      UpFrom6(p, At(p, k - 1));
    }
  }

  lemma LeaveFrom6(p: Pool, ip: seq<Byte>)
    requires ValidPool(p) && !Is4(p) && |ip| == 16 && Base6(p) <= Value(ip) && Value(ip) + 1 == Limit6(p)
    ensures !ContainsIP(p.base, p.ones, Next(ip))
  {
    hide Value, To4, ContainsIP, Next;
    Block6(p);
    Below6(p, ip);
    NextValue(ip);
    MappedRange(Next(ip));
    In6(p, Next(ip));
    if p.ones == 0 {
      Pow256Is(16);
    }
  }

  /** The index at which the walk is outside. */
  function Last6(p: Pool): nat
    requires p.ones <= 128
  {
    if Base6(p) + 2 <= Limit6(p) then Limit6(p) - Base6(p) - 2 else 0
  }

  lemma End6(p: Pool)
    requires ValidPool(p) && !Is4(p)
    ensures !Inside(p, Last6(p))
  {
    hide Value, To4, ContainsIP, Next;
    Block6(p);
    if Base6(p) + 2 > Limit6(p) {
      Single6(p);
    } else if Last6(p) == 0 {
      FirstOutside6(p);
    } else {
      LaterOutside6(p);
    }
  }

  lemma FirstOutside6(p: Pool)
    requires ValidPool(p) && !Is4(p) && Base6(p) + 2 == Limit6(p)
    ensures !ContainsIP(p.base, p.ones, Next(Next(p.base)))
  {
    hide Value, To4, ContainsIP, Next, Limit6, Top6;
    Block6(p);
    UpFrom6(p, p.base);
    LeaveFrom6(p, Next(p.base));
  }

  lemma LaterOutside6(p: Pool)
    requires ValidPool(p) && !Is4(p) && Base6(p) + 2 < Limit6(p)
    ensures !Inside(p, Last6(p))
  {
    hide Value, To4, ContainsIP, Next, Limit6, Top6;
    Block6(p);
    At6(p, Last6(p) - 1);
    LeaveFrom6(p, At(p, Last6(p) - 1));
  }

  /** A single address, or the last one before those with a 4-byte form. */
  lemma Single6(p: Pool)
    requires ValidPool(p) && !Is4(p) && Base6(p) + 2 > Limit6(p)
    ensures !ContainsIP(p.base, p.ones, Next(Next(p.base)))
  {
    hide Value, Next, MaskIP;
    Block6(p);
    NextValue(p.base);
    var ip := Next(p.base);
    MappedRange(ip);
    if To4(ip).None? {
      NextValue(ip);
      In6(p, Next(ip));
    } else {
      NextIs4(ip);
    }
  }

  lemma NextIs4(ip: seq<Byte>)
    requires To4(ip).Some?
    ensures To4(Next(ip)).Some?
  {
  }

  lemma Test6(p: Pool, k: nat)
    requires ValidPool(p) && !Is4(p) && Base6(p) + 2 + k < Limit6(p)
    ensures Inside(p, k) && Value(At(p, k)) == Base6(p) + 2 + k
    ensures Grantable(p, k) <==> Base6(p) + 2 + k !in Taken6(p)
  {
    hide Value, To4, ContainsIP, Next, At, BytesOf, Pow256, MaskIP, Masked;
    Block6(p);
    At6(p, k);
    Below6(p, At(p, k));
    BytesOfValue(At(p, k));
  }

  lemma {:induction false} Walk6(p: Pool, k: nat)
    requires ValidPool(p) && !Is4(p) && forall j: nat :: j < k ==> !Stops(p, j)
    ensures k <= Last6(p)
    ensures NextFree(Limit6(p) + 1, Taken6(p), Base6(p) + 2) == NextFree(Limit6(p) + 1, Taken6(p), Base6(p) + 2 + k)
  {
    hide Value, Inside, Grantable, Taken6, Top6, Limit6, Base6, NextFree, MaskIP, To4;
    if k > 0 {
      Walk6(p, k - 1);
      assert !Stops(p, k - 1);
      if k - 1 == Last6(p) {
        End6(p);
      } else {
        Test6(p, k - 1);
        SkipTaken(Limit6(p) + 1, Taken6(p), Base6(p) + 1 + k);
      }
    }
  }

  /** On IPv6 the walk finds the least unused address above the server, below the end of the
      block and below the addresses with a 4-byte form; no broadcast address is left out. */
  lemma Found6(p: Pool, k: nat, r: Option<seq<Byte>>)
    requires ValidPool(p) && !Is4(p) && Found(p, k, r)
    ensures Number(r) == NextFree(Limit6(p) + 1, Taken6(p), Base6(p) + 2)
  {
    hide Value, Inside, Grantable, Taken6, Top6;
    Walk6(p, k);
    if k == Last6(p) {
      End6(p);
    } else {
      Test6(p, k);
    }
  }

  lemma Ends6(p: Pool)
    requires ValidPool(p) && !Is4(p)
    ensures Ends(p)
  {
    hide Inside;
    Block6(p);
    End6(p);
    assert Stops(p, Last6(p));
  }

  // ----- In all cases -----

  /** The IPv4 address granted; without a mask bit None means that the search goes on for ever. */
  function Grant(base: nat, ones: nat, taken: set<nat>): Option<nat>
    requires ones <= 32
  {
    if ones == 0 then FreeZero(taken) else NextFree(base + Size(ones), taken, base + 2)
  }

  /** The number of the address granted; None when there is none. */
  function Expected(p: Pool): Option<nat>
    requires ValidPool(p)
  {
    if Is4(p) then Grant(Base4(p), Bits4(p), TakenOf(p.used)) else NextFree(Limit6(p) + 1, Taken6(p), Base6(p) + 2)
  }

  lemma FoundExpected(p: Pool, k: nat, r: Option<seq<Byte>>)
    requires ValidPool(p) && Found(p, k, r)
    ensures Number(r) == Expected(p)
  {
    hide Found, TakenOf, Taken6, Limit6, FreeZero;
    if !Is4(p) {
      Found6(p, k, r);
    } else if Bits4(p) == 0 {
      FoundZero(p, k, r);
    } else {
      Found4(p, k, r);
    }
  }

  /** The search ends, unless an IPv4 subnet has no mask bit and no address left. */
  lemma EndsExactly(p: Pool)
    requires ValidPool(p)
    ensures Ends(p) <==>
            !Is4(p) || Bits4(p) >= 1 || exists x: nat :: x + 1 < ADDRESSES && x !in TakenOf(p.used)
  {
    hide Ends, TakenOf;
    if !Is4(p) {
      Ends6(p);
    } else if Bits4(p) == 0 {
      EndsZeroExactly(p);
    } else {
      Ends4(p);
    }
  }
}
