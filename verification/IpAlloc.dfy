/** Handing out tunnel addresses from a subnet. */
module IpAlloc {
  import opened Wrappers
  import opened Arith
  import opened Cidr
  import opened IpBytes
  import opened IpPool
  import opened Collections

  lemma MaskAgain(ip: seq<Byte>, ones: nat)
    requires ones <= 8 * |ip|
    ensures MaskIP(MaskIP(ip, ones), ones) == MaskIP(ip, ones)
  {
    hide MaskIP, Value, Rounded;
    var h := 8 * |ip| - ones;
    MaskIPValue(ip, ones);
    RoundedFacts(Value(ip), h);
    RoundedUnique(Rounded(Value(ip), h), Rounded(Value(ip), h), h);
    SameMasked(MaskIP(ip, ones), ip, ones);
  }

  /** Marking or freeing the text of an IPv4 address does so for that address alone. */
  lemma ShowTaken(used: set<string>, ip: seq<Byte>, print6: seq<Byte> -> string)
    requires To4(ip).Some?
    ensures var a := Value(To4(ip).value);
            && TakenOf(used + {Show(ip, print6)}) == TakenOf(used) + {a}
            && TakenOf(used - {Show(ip, print6)}) == TakenOf(used) - {a}
  {
    hide TakenOf, PrintIPv4, Value;
    var b := To4(ip).value;
    Value4(b);
    TakenAdd(used, Value(b));
    TakenRemove(used, Value(b));
  }

  class IPAllocator {
    const base: seq<Byte>
    const ones: nat
    const print6: seq<Byte> -> string
    var used: set<string>

    ghost function View(): Pool
      reads this
    {
      Pool(base, ones, used, print6)
    }

    ghost predicate Valid()
      reads this
    {
      ValidPool(View())
    }

    /** Reserves the network and server addresses besides those already in use. */
    constructor (subnet: seq<Byte>, ones: nat, texts: set<string>, print6: seq<Byte> -> string)
      requires (|subnet| == 4 || |subnet| == 16) && ones <= 8 * |subnet|
      ensures Valid() && this.ones == ones && this.print6 == print6 && base == MaskIP(subnet, ones)
      ensures used == texts + {Show(base, print6)} + {Show(Next(base), print6)}
      ensures |subnet| == 4 ==>
                && Is4(View()) && Bits4(View()) == ones && Base4(View()) == Masked(Value(subnet), ones)
                && TakenOf(used) == TakenOf(texts) + {Base4(View())} + {(Base4(View()) + 1) % ADDRESSES}
    {
      hide MaskIP, Show, Value, TakenOf, Next;
      var network := MaskIP(subnet, ones);
      MaskAgain(subnet, ones);
      MaskIPValue(subnet, ones);
      var server := FirstUsableIP(network, ones);
      Reserved(texts, network, print6);
      this.base, this.ones, this.print6 := network, ones, print6;
      this.used := texts + {Show(network, print6)} + {Show(server, print6)};
    }

    /** Walks up from the server address, skipping the broadcast address and those in use,
        until it leaves the subnet. */
    method Search() returns (r: Option<seq<Byte>>, ghost k: nat)
      requires Valid() && Ends(View())
      ensures Found(View(), k, r)
    {
      hide Next, ContainsIP, Broadcast, Show, MaskIP;
      ghost var last: nat :| Stops(View(), last);
      var server := FirstUsableIP(base, ones);
      var ip := NextIP(server);
      k := 0;
      while ContainsIP(base, ones, ip)
        invariant ip == At(View(), k)
        invariant forall j: nat :: j < k ==> !Stops(View(), j)
        invariant k <= last
        decreases last - k
      {
        var broadcast := IsBroadcast(ip, base, ones);
        if !broadcast && Show(ip, print6) !in used {
          return Some(ip), k;
        }
        assert !Stops(View(), k);
        ip := NextIP(ip);
        k := k + 1;
      }
      return None, k;
    }

    /** Grants the least unused address above the server address, or fails if there is none. */
    method Allocate() returns (r: Option<seq<Byte>>)
      requires Valid() && Ends(View())
      modifies this`used
      ensures Valid() && Number(r) == Expected(old(View()))
      ensures used == if r.Some? then old(used) + {Show(r.value, print6)} else old(used)
      ensures r.Some? ==> Show(r.value, print6) !in old(used)
      ensures r.Some? && Is4(View()) ==> |r.value| == 4 && TakenOf(used) == TakenOf(old(used)) + {Value(r.value)}
    {
      hide Expected, TakenOf, ContainsIP, Broadcast, Value;
      ghost var k;
      r, k := Search();
      FoundExpected(View(), k, r);
      if r.Some? {
        if Is4(View()) {
          At4(View(), k);
          ShowTaken(used, r.value, print6);
        }
        used := used + {Show(r.value, print6)};
      }
    }

    /** Frees any address, reserved or not. */
    method Release(ip: seq<Byte>)
      modifies this`used
      ensures used == old(used) - {Show(ip, print6)}
      ensures To4(ip).Some? ==> TakenOf(used) == TakenOf(old(used)) - {Value(To4(ip).value)}
    {
      hide TakenOf, Show;
      if To4(ip).Some? {
        ShowTaken(used, ip, print6);
      }
      used := used - {Show(ip, print6)};
    }
  }

  lemma Reserved(texts: set<string>, base: seq<Byte>, print6: seq<Byte> -> string)
    ensures |base| == 4 ==>
              TakenOf(texts + {Show(base, print6)} + {Show(Next(base), print6)})
              == TakenOf(texts) + {Value(base)} + {(Value(base) + 1) % ADDRESSES}
  {
    hide TakenOf, Show, Value, Next;
    if |base| == 4 {
      NextValue(base);
      ShowTaken(texts, base, print6);
      ShowTaken(texts + {Show(base, print6)}, Next(base), print6);
    }
  }

  // ----- Runs -----

  datatype Op = Allocate | Release(addr: nat)

  datatype State = State(taken: set<nat>, live: seq<nat>)

  function Without(s: seq<nat>, a: nat): seq<nat> {
    if s == [] then []
    else Without(s[..|s| - 1], a) + (if s[|s| - 1] == a then [] else [s[|s| - 1]])
  }

  /** `live` lists the addresses granted and not released since. */
  function StepOp(base: nat, ones: nat, s: State, op: Op): State
    requires ones <= 32
  {
    match op
    case Release(a) => State(s.taken - {a}, Without(s.live, a))
    case Allocate =>
      match Grant(base, ones, s.taken)
      case None => s
      case Some(a) => State(s.taken + {a}, s.live + [a])
  }

  function Run(base: nat, ones: nat, start: set<nat>, ops: seq<Op>): State
    requires ones <= 32
  {
    if ops == [] then State(start, [])
    else StepOp(base, ones, Run(base, ones, start, ops[..|ops| - 1]), ops[|ops| - 1])
  }

  lemma {:induction false} WithoutFacts(s: seq<nat>, a: nat)
    ensures forall x :: x in Without(s, a) <==> x in s && x != a
    ensures NoRepeats(s) ==> NoRepeats(Without(s, a))
  {
    if s != [] {
      var n := |s| - 1;
      WithoutFacts(s[..n], a);
      assert s == s[..n] + [s[n]];
      var rest := Without(s[..n], a);
      assert forall i :: 0 <= i < |rest| ==> rest[i] in s[..n];
    }
  }

  lemma GrantIsFree(base: nat, ones: nat, taken: set<nat>)
    requires ones <= 32
    ensures Grant(base, ones, taken).Some? ==> Grant(base, ones, taken).value !in taken
  {
    NextFreeIsLeast(ADDRESSES, taken, 2);
    NextFreeIsLeast(base + Size(ones), taken, base + 2);
  }

  /** From any used set and over any calls, live addresses are taken and pairwise distinct. */
  lemma {:induction false} LiveAddressesDistinct(base: nat, ones: nat, start: set<nat>, ops: seq<Op>)
    requires ones <= 32
    ensures var s := Run(base, ones, start, ops); NoRepeats(s.live) && forall x :: x in s.live ==> x in s.taken
  {
    hide Grant;
    if ops != [] {
      var n := |ops| - 1;
      LiveAddressesDistinct(base, ones, start, ops[..n]);
      var s := Run(base, ones, start, ops[..n]);
      match ops[n]
      case Release(a) => WithoutFacts(s.live, a);
      case Allocate => GrantIsFree(base, ones, s.taken);
    }
  }

  /** Neither the network, the server nor the broadcast address is live. */
  ghost predicate Unreserved(base: nat, ones: nat, s: State)
    requires ones <= 32
  {
    forall x :: x in s.live ==> base + 2 <= x && x + 1 < base + Size(ones)
  }

  /** With a mask bit, reserved addresses are never granted, not even after a release. */
  lemma {:induction false} ReservedNeverGranted(base: nat, ones: nat, start: set<nat>, ops: seq<Op>)
    requires 1 <= ones <= 32
    ensures Unreserved(base, ones, Run(base, ones, start, ops))
  {
    if ops != [] {
      var n := |ops| - 1;
      ReservedNeverGranted(base, ones, start, ops[..n]);
      var s := Run(base, ones, start, ops[..n]);
      match ops[n]
      case Release(a) => WithoutFacts(s.live, a);
      case Allocate => NextFreeIsLeast(base + Size(ones), s.taken, base + 2);
    }
  }

  /** Without one, the walk comes round to the network address: full otherwise, and that
      address released, the next call grants it. */
  lemma NetworkGrantedAtZero()
    ensures Run(0, 0, Span(0, ADDRESSES), [Release(0), Allocate]).live == [0]
  {
    hide Span;
    var ops := [Release(0), Allocate];
    var start := Span(0, ADDRESSES);
    assert ops[..1] == [Release(0)] && ops[..1][..0] == [];
    assert Run(0, 0, start, ops[..1]) == State(start - {0}, []);
    NextFreeIsLeast(ADDRESSES, start - {0}, 2);
  }

  /** Reserved addresses are safe over every run if and only if the subnet has a mask bit. */
  lemma ReservedSafeExactly(base: nat, ones: nat)
    requires ones <= 32 && base % Size(ones) == 0 && base < ADDRESSES
    ensures ones >= 1 <==> forall start, ops :: Unreserved(base, ones, Run(base, ones, start, ops))
  {
    hide Run, Span;
    if ones >= 1 {
      forall start, ops
        ensures Unreserved(base, ones, Run(base, ones, start, ops))
      {
        ReservedNeverGranted(base, ones, start, ops);
      }
    } else {
      ZeroBase(base);
      NetworkGrantedAtZero();
      var s := Run(0, 0, Span(0, ADDRESSES), [Release(0), Allocate]);
      assert 0 in s.live && !Unreserved(0, 0, s);
    }
  }

  lemma ZeroBase(base: nat)
    requires base % Size(0) == 0 && base < ADDRESSES
    ensures base == 0 && Size(0) == ADDRESSES
  {
    Pow2At32();
  }

  function Allocations(n: nat): seq<Op> {
    if n == 0 then [] else Allocations(n - 1) + [Allocate]
  }

  /** How many addresses a subnet has for peers. */
  function Capacity(ones: nat): nat
    requires ones <= 32
  {
    if Size(ones) >= 3 then Size(ones) - 3 else 0
  }

  lemma {:induction false} NextFreeAfter(end: nat, taken: set<nat>, from: nat, k: nat)
    requires forall x :: from <= x < from + k ==> x in taken
    requires from + k !in taken && from + k + 1 <= end
    ensures NextFree(end, taken, from) == if from + k + 1 < end then Some(from + k) else None
    decreases k
  {
    if k > 0 {
      NextFreeAfter(end, taken, from + 1, k - 1);
    }
  }

  function Span(lo: nat, hi: nat): (r: set<nat>)
    requires lo <= hi
    ensures forall x :: x in r <==> lo <= x < hi
    decreases hi
  {
    if lo == hi then {} else Span(lo, hi - 1) + {hi - 1}
  }

  /** A fresh allocator after k grants: the k addresses after the server, in order. */
  function FreshState(base: nat, k: nat): State {
    State(Span(base, base + 2 + k), seq(k, i => base + 2 + i))
  }

  lemma FreshStep(base: nat, ones: nat, k: nat)
    requires ones <= 30 && k <= Capacity(ones) && base % Size(ones) == 0 && base < ADDRESSES
    ensures StepOp(base, ones, FreshState(base, k), Allocate)
         == FreshState(base, if k < Capacity(ones) then k + 1 else k)
  {
    AtLeastFour(ones);
    var s := FreshState(base, k);
    NextFreeAfter(base + Size(ones), s.taken, base + 2, k);
    if ones == 0 {
      ZeroBase(base);
    }
    if k < Capacity(ones) {
      assert s.taken + {base + 2 + k} == FreshState(base, k + 1).taken;
      assert s.live + [base + 2 + k] == FreshState(base, k + 1).live;
    }
  }

  function Granted(ones: nat, n: nat): nat
    requires ones <= 32
  {
    if n < Capacity(ones) then n else Capacity(ones)
  }

  lemma FreshNext(base: nat, ones: nat, n: nat)
    requires ones <= 30 && base % Size(ones) == 0 && base < ADDRESSES
    ensures StepOp(base, ones, FreshState(base, Granted(ones, n)), Allocate) == FreshState(base, Granted(ones, n + 1))
  {
    FreshStep(base, ones, Granted(ones, n));
  }

  /** A fresh allocator grants the addresses after the server in order until it has granted
      all it can, and none after that: it fails, or, without a mask bit, does not return. */
  lemma {:induction false} FreshGrants(base: nat, ones: nat, n: nat)
    requires ones <= 30 && base % Size(ones) == 0 && base < ADDRESSES
    ensures Run(base, ones, {base, base + 1}, Allocations(n)) == FreshState(base, Granted(ones, n))
  {
    hide StepOp, Run, FreshState, Granted, Allocations, Size;
    if n == 0 {
      FreshStart(base, ones);
    } else {
      FreshGrants(base, ones, n - 1);
      RunOneMore(base, ones, {base, base + 1}, n - 1);
      FreshNext(base, ones, n - 1);
    }
  }

  /** That is 2^(32 - p) - 3 addresses. */
  lemma CapacityIs(ones: nat)
    requires ones <= 30
    ensures Capacity(ones) == Pow2(32 - ones) - 3
  {
    AtLeastFour(ones);
  }

  lemma FreshStart(base: nat, ones: nat)
    requires ones <= 32
    ensures Run(base, ones, {base, base + 1}, Allocations(0)) == FreshState(base, Granted(ones, 0))
  {
    assert {base, base + 1} == Span(base, base + 2);
    assert Granted(ones, 0) == 0;
  }

  lemma RunOneMore(base: nat, ones: nat, start: set<nat>, n: nat)
    requires ones <= 32
    ensures Run(base, ones, start, Allocations(n + 1))
         == StepOp(base, ones, Run(base, ones, start, Allocations(n)), Allocate)
  {
    AllocationsLength(n);
    var ops := Allocations(n);
    assert (ops + [Allocate])[..n] == ops;
  }

  lemma {:induction false} AllocationsLength(n: nat)
    ensures |Allocations(n)| == n
  {
    if n > 0 {
      AllocationsLength(n - 1);
    }
  }

  lemma AtLeastFour(ones: nat)
    requires ones <= 30
    ensures Size(ones) >= 4
  {
    Pow2Monotone(2, 32 - ones);
    assert Pow2(2) == 4;
  }
}
