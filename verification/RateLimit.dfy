/**
 The login limiter: a sliding window per address, kept in slices that are compacted in
 place, with a clean-up that may run between any two attempts.  Times are integers.
 */
module RateLimit {
  import opened Collections

  // ----- What one call does to the recorded times -----

  /** The times after `cutoff`, in order. */
  function Recent(ts: seq<int>, cutoff: int): seq<int> {
    if ts == [] then []
    else
      var rest := Recent(ts[..|ts| - 1], cutoff);
      if ts[|ts| - 1] > cutoff then rest + [ts[|ts| - 1]] else rest
  }

  function Times(m: map<string, seq<int>>, ip: string): seq<int> {
    if ip in m then m[ip] else []
  }

  function AllowStep(m: map<string, seq<int>>, limit: int, window: int, ip: string, now: int)
    : (map<string, seq<int>>, bool)
  {
    var valid := Recent(Times(m, ip), now - window);
    if |valid| >= limit then (m[ip := valid], false) else (m[ip := valid + [now]], true)
  }

  function CleanStep(m: map<string, seq<int>>, window: int, now: int): map<string, seq<int>> {
    map ip | ip in m && Recent(m[ip], now - window) != [] :: Recent(m[ip], now - window)
  }

  lemma RecentSnoc(ts: seq<int>, t: int, cutoff: int)
    ensures Recent(ts + [t], cutoff) == if t > cutoff then Recent(ts, cutoff) + [t] else Recent(ts, cutoff)
  {
    assert (ts + [t])[..|ts|] == ts;
  }

  lemma {:induction false} RecentTwice(ts: seq<int>, c: int, d: int)
    requires c <= d
    ensures Recent(Recent(ts, c), d) == Recent(ts, d)
  {
    if ts != [] {
      var n := |ts| - 1;
      RecentTwice(ts[..n], c, d);
      if ts[n] > c {
        RecentSnoc(Recent(ts[..n], c), ts[n], d);
      }
    }
  }

  lemma {:induction false} RecentShrinks(ts: seq<int>, c: int, d: int)
    requires c <= d
    ensures |Recent(ts, d)| <= |Recent(ts, c)| <= |ts|
  {
    if ts != [] {
      RecentShrinks(ts[..|ts| - 1], c, d);
    }
  }

  // ----- The limiter itself -----

  /** A Go slice from the start of its backing array. */
  datatype Slice = Slice(data: array<int>, len: nat)

  /** Filters the first `n` cells into the front of the same array. */
  method Compact(a: array<int>, n: nat, cutoff: int) returns (m: nat)
    requires n <= a.Length
    modifies a
    ensures m <= n && a[..m] == Recent(old(a[..n]), cutoff)
  {
    m := 0;
    ghost var was := a[..n];
    for i := 0 to n
      invariant m <= i
      invariant a[..m] == Recent(was[..i], cutoff)
      invariant forall x :: i <= x < n ==> a[x] == was[x]
    {
      assert was[..i + 1][..i] == was[..i];
      if a[i] > cutoff {
        ghost var front := a[..m];
        a[m] := a[i];
        assert a[..m + 1] == front + [was[i]];
        m := m + 1;
      }
    }
    assert was[..n] == was;
  }

  /** Go's append: into spare capacity when there is some, else into a larger array. */
  method Append(a: array<int>, n: nat, t: int) returns (s: Slice)
    requires n <= a.Length
    modifies a
    ensures s.len == n + 1 && s.len <= s.data.Length
    ensures s.data == a || fresh(s.data)
    ensures s.data[..n + 1] == old(a[..n]) + [t]
    ensures forall x :: 0 <= x < n ==> a[x] == old(a[x])
  {
    if n < a.Length {
      a[n] := t;
      return Slice(a, n + 1);
    }
    var b := new int[2 * n + 1];
    for i := 0 to n
      invariant a[..n] == old(a[..n]) && b[..i] == a[..i]
    {
      b[i] := a[i];
    }
    b[n] := t;
    assert b[..n] == a[..n];
    return Slice(b, n + 1);
  }

  class LoginRateLimiter {
    var attempts: map<string, Slice>
    const limit: int
    const window: int

    constructor (limit: int, window: int)
      ensures this.limit == limit && this.window == window && attempts == map[] && Valid() && View() == map[]
    {
      this.limit, this.window, this.attempts := limit, window, map[];
    }

    function Arrays(): set<array<int>>
      reads this
    {
      set ip | ip in attempts :: attempts[ip].data
    }

    /** Every slice fits its array and no two addresses share one. */
    ghost predicate Valid()
      reads this
    {
      && (forall ip :: ip in attempts ==> attempts[ip].len <= attempts[ip].data.Length)
      && (forall x, y :: x in attempts && y in attempts && x != y ==> attempts[x].data != attempts[y].data)
    }

    ghost function View(): map<string, seq<int>>
      reads this, Arrays()
      requires Valid()
    {
      map ip | ip in attempts :: attempts[ip].data[..attempts[ip].len]
    }

    /** The slice of `ip` with its expired times dropped in place. */
    method Filtered(ip: string, cutoff: int) returns (s: Slice)
      requires Valid()
      modifies Arrays()
      ensures s.len <= s.data.Length && s.data[..s.len] == Recent(Times(old(View()), ip), cutoff)
      ensures if ip in attempts then s.data == attempts[ip].data else fresh(s.data)
      ensures View() - {ip} == old(View()) - {ip}
    {
      if ip in attempts {
        var n := Compact(attempts[ip].data, attempts[ip].len, cutoff);
        s := Slice(attempts[ip].data, n);
      } else {
        var none := new int[0];
        s := Slice(none, 0);
      }
    }

    method Put(ip: string, s: Slice)
      requires Valid() && s.len <= s.data.Length
      requires forall k :: k in attempts && k != ip ==> attempts[k].data != s.data
      modifies this`attempts
      ensures Valid() && attempts == old(attempts)[ip := s]
      ensures View() - {ip} == old(View()) - {ip}
      ensures ip in View() && View()[ip] == s.data[..s.len]
      ensures forall a :: a in Arrays() ==> a == s.data || a in old(Arrays())
    {
      attempts := attempts[ip := s];
    }

    /** The filtered slice of `ip`, with this attempt recorded when it is granted. */
    method Admit(ip: string, now: int) returns (s: Slice, granted: bool)
      requires Valid()
      modifies Arrays()
      ensures s.len <= s.data.Length
      ensures var (m, g) := AllowStep(old(View()), limit, window, ip, now); s.data[..s.len] == m[ip] && granted == g
      ensures (ip in attempts && s.data == attempts[ip].data) || fresh(s.data)
      ensures View() - {ip} == old(View()) - {ip}
    {
      hide Recent, Times;
      s := Filtered(ip, now - window);
      granted := s.len < limit;
      if granted {
        s := Record(ip, s, now);
      }
    }

    /** Appends to the slice of `ip`, leaving those of the other addresses alone. */
    method Record(ip: string, slice: Slice, now: int) returns (s: Slice)
      requires Valid() && slice.len <= slice.data.Length
      requires forall k :: k in attempts && k != ip ==> attempts[k].data != slice.data
      modifies slice.data
      ensures s.len <= s.data.Length && s.data[..s.len] == old(slice.data[..slice.len]) + [now]
      ensures s.data == slice.data || fresh(s.data)
      ensures View() - {ip} == old(View()) - {ip}
    {
      s := Append(slice.data, slice.len, now);
    }

    /** Drops expired times of this address in place, then grants if there is room. */
    method Allow(ip: string, now: int) returns (granted: bool)
      requires Valid()
      modifies this, Arrays()
      ensures Valid() && fresh(Arrays() - old(Arrays()))
      ensures (View(), granted) == AllowStep(old(View()), limit, window, ip, now)
    {
      ghost var was := View();
      var s;
      s, granted := Admit(ip, now);
      Put(ip, s);
      UpdatedAt(View(), was, ip);
    }

    method Drop(ip: string)
      requires Valid()
      modifies this`attempts
      ensures Valid() && Arrays() <= old(Arrays())
      ensures View() == old(View()) - {ip}
    {
      attempts := attempts - {ip};
    }

    /** One address of the clean-up. */
    method SweepOne(ip: string, cutoff: int)
      requires Valid() && ip in attempts
      modifies this, Arrays()
      ensures Valid() && Arrays() <= old(Arrays())
      ensures View() == SweepKey(old(View()), ip, cutoff)
    {
      ghost var was := View();
      var s := Filtered(ip, cutoff);
      if s.len == 0 {
        Drop(ip);
      } else {
        Put(ip, s);
        UpdatedAt(View(), was, ip);
      }
    }

    /** The clean-up body: filters every slice in place and drops the empty ones. */
    method Cleanup(now: int)
      requires Valid()
      modifies this, Arrays()
      ensures Valid() && Arrays() <= old(Arrays())
      ensures View() == CleanStep(old(View()), window, now)
    {
      ghost var was := View();
      var ips := Enumerate(attempts.Keys);
      for i := 0 to |ips|
        invariant Valid() && Arrays() <= old(Arrays())
        invariant View() == SweepKeys(was, ips[..i], now - window)
      {
        SweepStillThere(was, ips, i, now - window);
        assert ips[i] in View();
        SweepOne(ips[i], now - window);
        SweepNext(was, ips, i, now - window);
      }
      SweptAll(was, ips, window, now);
    }
  }

  function SweepKey(m: map<string, seq<int>>, ip: string, cutoff: int): map<string, seq<int>> {
    if ip !in m then m
    else
      var valid := Recent(m[ip], cutoff);
      if valid == [] then m - {ip} else m[ip := valid]
  }

  /** Clean-up of the given addresses, one after the other. */
  function SweepKeys(m: map<string, seq<int>>, ips: seq<string>, cutoff: int): map<string, seq<int>> {
    if ips == [] then m else SweepKey(SweepKeys(m, ips[..|ips| - 1], cutoff), ips[|ips| - 1], cutoff)
  }

  lemma SweepNext(m: map<string, seq<int>>, ips: seq<string>, i: nat, cutoff: int)
    requires i < |ips|
    ensures SweepKeys(m, ips[..i + 1], cutoff) == SweepKey(SweepKeys(m, ips[..i], cutoff), ips[i], cutoff)
  {
    assert ips[..i + 1][..i] == ips[..i];
  }

  lemma {:induction false} SweepKeysAt(m: map<string, seq<int>>, ips: seq<string>, cutoff: int, k: string)
    requires NoRepeats(ips)
    ensures var r := SweepKeys(m, ips, cutoff);
            if k in m && (k in ips ==> Recent(m[k], cutoff) != [])
            then k in r && r[k] == if k in ips then Recent(m[k], cutoff) else m[k]
            else k !in r
  {
    if ips != [] {
      var n := |ips| - 1;
      SweepKeysAt(m, ips[..n], cutoff, k);
      assert ips == ips[..n] + [ips[n]];
    }
  }

  lemma SweepStillThere(m: map<string, seq<int>>, ips: seq<string>, i: nat, cutoff: int)
    requires NoRepeats(ips) && Elems(ips) == m.Keys && i < |ips|
    ensures ips[i] in SweepKeys(m, ips[..i], cutoff)
  {
    assert ips[i] in Elems(ips);
    SweepKeysAt(m, ips[..i], cutoff, ips[i]);
  }

  lemma SweptAll(m: map<string, seq<int>>, ips: seq<string>, window: int, now: int)
    requires NoRepeats(ips) && Elems(ips) == m.Keys
    ensures SweepKeys(m, ips[..|ips|], now - window) == CleanStep(m, window, now)
  {
    assert ips[..|ips|] == ips;
    var r := SweepKeys(m, ips, now - window);
    forall k | k in m || k in r
      ensures k in r <==> k in m && Recent(m[k], now - window) != []
      ensures k in r ==> r[k] == Recent(m[k], now - window)
    {
      SweepKeysAt(m, ips, now - window, k);
      assert k in m ==> k in Elems(ips);
    }
  }

  lemma UpdatedAt(m: map<string, seq<int>>, was: map<string, seq<int>>, ip: string)
    requires ip in m && m - {ip} == was - {ip}
    ensures m == was[ip := m[ip]]
  {
    assert forall k :: k != ip ==> (k in m <==> k in m - {ip}) && (k in was <==> k in was - {ip});
    assert forall k :: k != ip && k in m ==> m[k] == (m - {ip})[k] && was[k] == (was - {ip})[k];
  }

  // ----- Runs -----

  datatype Event = Attempt(ip: string, at: int) | Sweep(at: int)

  ghost predicate Timely(es: seq<Event>) {
    forall i, j :: 0 <= i < j < |es| ==> es[i].at <= es[j].at
  }

  /** Recorded times after a run. */
  function RunMap(es: seq<Event>, limit: int, window: int): map<string, seq<int>> {
    if es == [] then map[]
    else
      var m := RunMap(es[..|es| - 1], limit, window);
      match es[|es| - 1]
      case Attempt(ip, at) => AllowStep(m, limit, window, ip, at).0
      case Sweep(at) => CleanStep(m, window, at)
  }

  /** Answers given to the attempts of a run, in order. */
  function Answers(es: seq<Event>, limit: int, window: int): seq<bool> {
    if es == [] then []
    else
      var n := |es| - 1;
      var before := Answers(es[..n], limit, window);
      match es[n]
      case Attempt(ip, at) => before + [AllowStep(RunMap(es[..n], limit, window), limit, window, ip, at).1]
      case Sweep(_) => before
  }

  function Attempts(es: seq<Event>): (r: seq<Event>)
    ensures forall e :: e in r ==> e.Attempt?
  {
    if es == [] then []
    else
      var before := Attempts(es[..|es| - 1]);
      if es[|es| - 1].Attempt? then before + [es[|es| - 1]] else before
  }

  /** Times at which `ip` was granted. */
  function Grants(es: seq<Event>, answers: seq<bool>, ip: string): seq<int> {
    if es == [] || |answers| != |es| then []
    else
      var n := |es| - 1;
      var before := Grants(es[..n], answers[..n], ip);
      if es[n].Attempt? && es[n].ip == ip && answers[n] then before + [es[n].at] else before
  }

  /** The reference limiter remembers every grant for ever and never cleans up: an attempt
      is granted when fewer than `limit` earlier grants lie in its window. */
  function Reference(es: seq<Event>, limit: int, window: int): (r: seq<bool>)
    requires forall e :: e in es ==> e.Attempt?
    ensures |r| == |es|
  {
    if es == [] then []
    else
      var n := |es| - 1;
      var before := Reference(es[..n], limit, window);
      before + [|Recent(Grants(es[..n], before, es[n].ip), es[n].at - window)| < limit]
  }

  /** The limiter's times and the full history agree on every window still to come. */
  ghost predicate Agree(m: map<string, seq<int>>, es: seq<Event>, answers: seq<bool>, from: int) {
    forall ip, c :: c >= from ==> Recent(Times(m, ip), c) == Recent(Grants(es, answers, ip), c)
  }

  lemma AgreeSweep(m: map<string, seq<int>>, es: seq<Event>, answers: seq<bool>, from: int, window: int, at: int)
    requires Agree(m, es, answers, from) && from <= at - window
    ensures Agree(CleanStep(m, window, at), es, answers, at - window)
  {
    var m' := CleanStep(m, window, at);
    forall ip, c | c >= at - window
      ensures Recent(Times(m', ip), c) == Recent(Grants(es, answers, ip), c)
    {
      if ip in m {
        RecentTwice(m[ip], at - window, c);
      }
      assert Recent(Times(m, ip), c) == Recent(Grants(es, answers, ip), c);
    }
  }

  lemma GrantsSnoc(es: seq<Event>, answers: seq<bool>, e: Event, granted: bool, ip: string)
    requires |answers| == |es| && e.Attempt?
    ensures Grants(es + [e], answers + [granted], ip) ==
            Grants(es, answers, ip) + if e.ip == ip && granted then [e.at] else []
  {
    assert (es + [e])[..|es|] == es && (answers + [granted])[..|es|] == answers;
  }

  lemma AllowTimes(m: map<string, seq<int>>, limit: int, window: int, ip: string, now: int, k: string, c: int)
    requires c >= now - window
    ensures var (m', granted) := AllowStep(m, limit, window, ip, now);
            Recent(Times(m', k), c) == Recent(Times(m, k), c) + if k == ip && granted && now > c then [now] else []
  {
    if k == ip {
      var ts := Times(m, ip);
      var valid := Recent(ts, now - window);
      RecentTwice(ts, now - window, c);
      RecentSnoc(valid, now, c);
    }
  }

  lemma AgreeAttempt(m: map<string, seq<int>>, es: seq<Event>, answers: seq<bool>, from: int, limit: int, window: int,
                     e: Event)
    requires Agree(m, es, answers, from) && e.Attempt? && from <= e.at - window && |answers| == |es|
    ensures var (m', granted) := AllowStep(m, limit, window, e.ip, e.at);
            && granted == (|Recent(Grants(es, answers, e.ip), e.at - window)| < limit)
            && Agree(m', es + [e], answers + [granted], e.at - window)
  {
    var (m', granted) := AllowStep(m, limit, window, e.ip, e.at);
    assert Recent(Times(m, e.ip), e.at - window) == Recent(Grants(es, answers, e.ip), e.at - window);
    forall ip, c | c >= e.at - window
      ensures Recent(Times(m', ip), c) == Recent(Grants(es + [e], answers + [granted], ip), c)
    {
      AllowTimes(m, limit, window, e.ip, e.at, ip, c);
      RecentGrants(es, answers, e, granted, ip, c);
    }
  }

  lemma RecentGrants(es: seq<Event>, answers: seq<bool>, e: Event, granted: bool, ip: string, c: int)
    requires |answers| == |es| && e.Attempt?
    ensures Recent(Grants(es + [e], answers + [granted], ip), c) ==
            Recent(Grants(es, answers, ip), c) + if e.ip == ip && granted && e.at > c then [e.at] else []
  {
    GrantsSnoc(es, answers, e, granted, ip);
    RecentSnoc(Grants(es, answers, ip), e.at, c);
  }

  /** The run functions, one event at a time. */
  lemma RunSnoc(es: seq<Event>, e: Event, limit: int, window: int)
    ensures e.Attempt? ==> var (m, g) := AllowStep(RunMap(es, limit, window), limit, window, e.ip, e.at);
              && RunMap(es + [e], limit, window) == m
              && Answers(es + [e], limit, window) == Answers(es, limit, window) + [g]
              && Attempts(es + [e]) == Attempts(es) + [e]
    ensures e.Sweep? ==>
              && RunMap(es + [e], limit, window) == CleanStep(RunMap(es, limit, window), window, e.at)
              && Answers(es + [e], limit, window) == Answers(es, limit, window)
              && Attempts(es + [e]) == Attempts(es)
  {
    assert (es + [e])[..|es|] == es;
  }

  lemma ReferenceSnoc(es: seq<Event>, e: Event, limit: int, window: int)
    requires e.Attempt? && forall x :: x in es ==> x.Attempt?
    ensures Reference(es + [e], limit, window) ==
            var before := Reference(es, limit, window);
            before + [|Recent(Grants(es, before, e.ip), e.at - window)| < limit]
  {
    assert (es + [e])[..|es|] == es;
  }

  ghost predicate Follows(es: seq<Event>, limit: int, window: int, from: int) {
    && Answers(es, limit, window) == Reference(Attempts(es), limit, window)
    && Agree(RunMap(es, limit, window), Attempts(es), Answers(es, limit, window), from)
  }

  lemma FollowsNext(es: seq<Event>, e: Event, limit: int, window: int, from: int)
    requires Follows(es, limit, window, from) && from <= e.at - window
    ensures Follows(es + [e], limit, window, e.at - window)
  {
    var m, past, said := RunMap(es, limit, window), Attempts(es), Answers(es, limit, window);
    RunSnoc(es, e, limit, window);
    match e
    case Sweep(at) =>
      AgreeSweep(m, past, said, from, window, at);
    case Attempt(ip, at) =>
      AgreeAttempt(m, past, said, from, limit, window, e);
      ReferenceSnoc(past, e, limit, window);
  }

  lemma {:induction false} RunFollows(es: seq<Event>, limit: int, window: int, from: int)
    requires Timely(es) && (es != [] ==> from == es[|es| - 1].at - window)
    ensures Follows(es, limit, window, from)
  {
    if es != [] {
      hide Follows;
      var n := |es| - 1;
      var past, e := es[..n], es[n];
      assert es == past + [e];
      var from' := if n == 0 then from else es[n - 1].at - window;
      RunFollows(past, limit, window, from');
      FollowsNext(past, e, limit, window, from');
    }
  }

  /** Clean-ups, wherever they fall, change no answer: the limiter answers every run as the
      reference limiter answers its attempts alone. */
  lemma SweepsChangeNothing(es: seq<Event>, fs: seq<Event>, limit: int, window: int)
    requires Timely(es) && Timely(fs) && Attempts(es) == Attempts(fs)
    ensures Answers(es, limit, window) == Answers(fs, limit, window) == Reference(Attempts(es), limit, window)
  {
    RunFollows(es, limit, window, if es == [] then 0 else es[|es| - 1].at - window);
    RunFollows(fs, limit, window, if fs == [] then 0 else fs[|fs| - 1].at - window);
  }

  // ----- The bound -----

  /** How many of the times lie in (lo, hi]. */
  function CountIn(ts: seq<int>, lo: int, hi: int): nat {
    if ts == [] then 0
    else CountIn(ts[..|ts| - 1], lo, hi) + (if lo < ts[|ts| - 1] <= hi then 1 else 0)
  }

  lemma {:induction false} CountIsRecent(ts: seq<int>, lo: int, hi: int)
    requires forall i :: 0 <= i < |ts| ==> ts[i] <= hi
    ensures CountIn(ts, lo, hi) == |Recent(ts, lo)|
  {
    if ts != [] {
      CountIsRecent(ts[..|ts| - 1], lo, hi);
    }
  }

  lemma {:induction false} NoneRecent(ts: seq<int>, lo: int)
    requires forall i :: 0 <= i < |ts| ==> ts[i] <= lo
    ensures Recent(ts, lo) == []
  {
    if ts != [] {
      NoneRecent(ts[..|ts| - 1], lo);
    }
  }

  lemma {:induction false} GrantsBefore(es: seq<Event>, answers: seq<bool>, ip: string, hi: int)
    requires forall i :: 0 <= i < |es| ==> es[i].at <= hi
    ensures forall i :: 0 <= i < |Grants(es, answers, ip)| ==> Grants(es, answers, ip)[i] <= hi
  {
    if es != [] && |answers| == |es| {
      GrantsBefore(es[..|es| - 1], answers[..|es| - 1], ip, hi);
    }
  }

  /** One more grant at `t`, allowed because its own window had room, overfills no window. */
  lemma WindowHolds(g: seq<int>, t: int, limit: int, window: int, T: int)
    requires forall i :: 0 <= i < |g| ==> g[i] <= t
    requires |Recent(g, t - window)| < limit
    requires CountIn(g, T - window, T) <= limit
    ensures CountIn(g + [t], T - window, T) <= limit
  {
    hide Recent;
    assert (g + [t])[..|g|] == g;
    if T >= t {
      CountIsRecent(g + [t], T - window, T);
      if t > T - window {
        RecentSnoc(g, t, T - window);
        RecentShrinks(g, t - window, T - window);
      } else {
        NoneRecent(g + [t], T - window);
      }
    }
  }

  lemma BoundNext(es: seq<Event>, e: Event, limit: int, window: int, ip: string, T: int)
    requires e.Attempt? && (forall x :: x in es ==> x.Attempt?)
    requires forall i :: 0 <= i < |es| ==> es[i].at <= e.at
    requires CountIn(Grants(es, Reference(es, limit, window), ip), T - window, T) <= if limit > 0 then limit else 0
    ensures CountIn(Grants(es + [e], Reference(es + [e], limit, window), ip), T - window, T)
         <= if limit > 0 then limit else 0
  {
    hide Recent, CountIn, Grants, Reference;
    var said := Reference(es, limit, window);
    ReferenceSnoc(es, e, limit, window);
    var granted := |Recent(Grants(es, said, e.ip), e.at - window)| < limit;
    GrantsSnoc(es, said, e, granted, ip);
    if e.ip == ip && granted {
      GrantsBefore(es, said, ip, e.at);
      WindowHolds(Grants(es, said, ip), e.at, limit, window, T);
    } else {
      assert Grants(es, said, ip) + [] == Grants(es, said, ip);
    }
  }

  lemma {:induction false} ReferenceBound(es: seq<Event>, limit: int, window: int, ip: string, T: int)
    requires Timely(es) && (forall e :: e in es ==> e.Attempt?)
    ensures CountIn(Grants(es, Reference(es, limit, window), ip), T - window, T) <= if limit > 0 then limit else 0
  {
    hide Recent, Reference;
    if es != [] {
      var n := |es| - 1;
      ReferenceBound(es[..n], limit, window, ip, T);
      assert es == es[..n] + [es[n]];
      BoundNext(es[..n], es[n], limit, window, ip, T);
    }
  }

  lemma {:induction false} AttemptsTimely(es: seq<Event>)
    requires Timely(es)
    ensures Timely(Attempts(es))
    ensures es != [] ==> forall i :: 0 <= i < |Attempts(es)| ==> Attempts(es)[i].at <= es[|es| - 1].at
  {
    if es != [] {
      AttemptsTimely(es[..|es| - 1]);
    }
  }

  /** In every run with a clock that does not go back, however often clean-up runs, no
      address is granted more than `limit` attempts in any window (T - window, T]. */
  lemma LimitHolds(es: seq<Event>, limit: int, window: int, ip: string, T: int)
    requires Timely(es)
    ensures CountIn(Grants(Attempts(es), Answers(es, limit, window), ip), T - window, T)
         <= if limit > 0 then limit else 0
  {
    SweepsChangeNothing(es, es, limit, window);
    AttemptsTimely(es);
    ReferenceBound(Attempts(es), limit, window, ip, T);
  }

  /** An attempt is refused exactly when `limit` grants already lie in its own window. */
  lemma RefusedExactly(es: seq<Event>, ip: string, now: int, limit: int, window: int)
    requires Timely(es) && forall i :: 0 <= i < |es| ==> es[i].at <= now
    ensures Answers(es + [Attempt(ip, now)], limit, window) == Answers(es, limit, window) +
            [CountIn(Grants(Attempts(es), Answers(es, limit, window), ip), now - window, now) < limit]
  {
    hide Recent, CountIn, Grants, Reference, RunMap;
    var e := Attempt(ip, now);
    var said := Answers(es, limit, window);
    SweepsChangeNothing(es, es, limit, window);
    SweepsChangeNothing(es + [e], es + [e], limit, window);
    RunSnoc(es, e, limit, window);
    ReferenceSnoc(Attempts(es), e, limit, window);
    AttemptsTimely(es);
    GrantsBefore(Attempts(es), said, ip, now);
    CountIsRecent(Grants(Attempts(es), said, ip), now - window, now);
  }
}
