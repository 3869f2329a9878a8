/** The faucet's daily cap: what the recorded payouts of one address may add up
    to, although the record is pruned for good as requests are served. */
module FaucetLimiter {
  import opened Options
  import Faucet

  /** Seconds an entry counts against the cap. */
  const DAY: real := 86400.0

  /** AMOUNT_ESP and DAILY_CAP_ESP. */
  datatype Config = Config(amount: nat, cap: nat)

  datatype Entry = Entry(ts: real, amount: nat)

  type State = map<string, seq<Entry>>

  /** A request in the order the lock admits it: the submitted address, the
      clock once the lock is held, and whether the payment goes through. */
  datatype Request = Request(raw: string, now: real, confirmed: bool)

  datatype Response =
    | BadRequest
    | TooManyRequests(retryAfter: int)
    | BadGateway
    | Sent(address: string)

  // ----- the limiter

  function Prune(entries: seq<Entry>, now: real): seq<Entry> {
    if entries == [] then []
    else (if now - entries[0].ts < DAY then [entries[0]] else []) + Prune(entries[1..], now)
  }

  function Sum(entries: seq<Entry>): nat {
    if entries == [] then 0 else entries[0].amount + Sum(entries[1..])
  }

  function EntriesOf(s: State, address: string): seq<Entry> {
    if address in s then s[address] else []
  }

  /** How long a refused caller is told to wait: whole seconds, rounded down. */
  function RetryAfter(entries: seq<Entry>, now: real): int {
    if entries == [] then 86400 else (DAY - (now - entries[0].ts)).Floor
  }

  function Serve(c: Config, s: State, q: Request): (State, Response) {
    match Faucet.NormalizeAddress(q.raw)
    case None => (s, BadRequest)
    case Some(address) =>
      var entries := Prune(EntriesOf(s, address), q.now);
      if Sum(entries) + c.amount > c.cap then (s, TooManyRequests(RetryAfter(entries, q.now)))
      else if !q.confirmed then (s, BadGateway)
      else (s[address := entries + [Entry(q.now, c.amount)]], Sent(address))
  }

  /** The faucet's handler around its stored state. */
  class Handler {
    const config: Config
    var state: State

    constructor (config: Config)
      ensures this.config == config && state == map[]
    {
      this.config := config;
      state := map[];
    }

    method DoPost(q: Request) returns (r: Response)
      modifies this
      ensures (state, r) == Serve(config, old(state), q)
      ensures Faucet.NormalizeAddress(q.raw).None? ==> r == BadRequest && state == old(state)
      ensures Faucet.NormalizeAddress(q.raw).Some? ==>
        var address := Faucet.NormalizeAddress(q.raw).value;
        var kept := Prune(if address in old(state) then old(state)[address] else [], q.now);
        if Sum(kept) + config.amount > config.cap then
          && state == old(state)
          && r == TooManyRequests(if kept == [] then 86400 else (86400.0 - (q.now - kept[0].ts)).Floor)
        else if !q.confirmed then state == old(state) && r == BadGateway
        else
          && state == old(state)[address := kept + [Entry(q.now, config.amount)]]
          && r == Sent(address)
    {
      hide Faucet.NormalizeAddress, Prune;
      var address := Faucet.NormalizeAddress(q.raw);
      if address.None? {
        return BadRequest;
      }
      var entries := Prune(EntriesOf(state, address.value), q.now);
      var used := 0;
      for i := 0 to |entries|
        invariant used + Sum(entries[i..]) == Sum(entries)
      {
        used := used + entries[i].amount;
      }
      if used + config.amount > config.cap {
        return TooManyRequests(RetryAfter(entries, q.now));
      }
      if !q.confirmed {
        return BadGateway;
      }
      entries := entries + [Entry(q.now, config.amount)];
      state := state[address.value := entries];
      return Sent(address.value);
    }
  }

  /** What one request does to what is stored for `address`. */
  lemma ServeEffect(c: Config, s: State, q: Request, address: string)
    ensures
      var kept := Prune(EntriesOf(s, address), q.now);
      var (s', r) := Serve(c, s, q);
      if r == Sent(address)
      then EntriesOf(s', address) == kept + [Entry(q.now, c.amount)] && Sum(kept) + c.amount <= c.cap
      else EntriesOf(s', address) == EntriesOf(s, address)
  {
    hide Faucet.NormalizeAddress, Prune, Sum;
  }

  // ----- whole runs

  ghost predicate ClockNeverBack(requests: seq<Request>) {
    forall i, j :: 0 <= i < j < |requests| ==> requests[i].now <= requests[j].now
  }

  /** The stored state once `requests` have been served, first to last. */
  function StateAfter(c: Config, requests: seq<Request>): State {
    if requests == [] then map[]
    else Serve(c, StateAfter(c, requests[..|requests| - 1]), requests[|requests| - 1]).0
  }

  function LastResponse(c: Config, requests: seq<Request>): Response
    requires requests != []
  {
    Serve(c, StateAfter(c, requests[..|requests| - 1]), requests[|requests| - 1]).1
  }

  /** Every payout `address` was ever sent, read off the responses alone. */
  function Payouts(c: Config, requests: seq<Request>, address: string): seq<Entry> {
    if requests == [] then []
    else
      var before := Payouts(c, requests[..|requests| - 1], address);
      if LastResponse(c, requests) == Sent(address)
      then before + [Entry(requests[|requests| - 1].now, c.amount)]
      else before
  }

  /** The payouts with a time stamp in (t - DAY, t]. */
  function Within(payouts: seq<Entry>, t: real): seq<Entry> {
    if payouts == [] then []
    else (if t - DAY < payouts[0].ts <= t then [payouts[0]] else []) + Within(payouts[1..], t)
  }

  ghost predicate Sorted(entries: seq<Entry>, now: real) {
    && (forall i, j :: 0 <= i < j < |entries| ==> entries[i].ts <= entries[j].ts)
    && (forall i :: 0 <= i < |entries| ==> entries[i].ts <= now)
  }

  // ----- lemmas about pruning

  /** Pruning keeps each entry less than a day old as often as it stood there,
      and no other. */
  lemma {:induction false} PruneIs(a: seq<Entry>, now: real, e: Entry)
    ensures multiset(Prune(a, now))[e] == if now - e.ts < 86400.0 then multiset(a)[e] else 0
  {
    if a != [] {
      PruneIs(a[1..], now, e);
      assert a == [a[0]] + a[1..];
    }
  }

  /** The window up to `t` holds each payout of the day that ends at `t`. */
  lemma {:induction false} WithinIs(a: seq<Entry>, t: real, e: Entry)
    ensures multiset(Within(a, t))[e] == if t - 86400.0 < e.ts <= t then multiset(a)[e] else 0
  {
    if a != [] {
      WithinIs(a[1..], t, e);
      assert a == [a[0]] + a[1..];
    }
  }

  lemma SumIs(a: seq<Entry>, e: Entry)
    ensures Sum([]) == 0 && Sum(a + [e]) == Sum(a) + e.amount
  {
    SumAppend(a, [e]);
    assert Sum([e]) == e.amount;
  }

  lemma {:induction false} PruneAppend(a: seq<Entry>, e: Entry, now: real)
    ensures Prune(a + [e], now) == Prune(a, now) + (if now - e.ts < DAY then [e] else [])
  {
    if a != [] {
      assert (a + [e])[1..] == a[1..] + [e];
      PruneAppend(a[1..], e, now);
    }
  }

  lemma PruneHead(a: seq<Entry>, now: real)
    requires a != []
    ensures Prune(a, now) == if now - a[0].ts < DAY then [a[0]] + Prune(a[1..], now) else Prune(a[1..], now)
  {
  }

  lemma {:induction false} PruneTwice(a: seq<Entry>, earlier: real, now: real)
    requires earlier <= now
    ensures Prune(Prune(a, earlier), now) == Prune(a, now)
  {
    if a != [] {
      PruneTwice(a[1..], earlier, now);
      PruneHead(a, earlier);
      assert ([a[0]] + Prune(a[1..], earlier))[1..] == Prune(a[1..], earlier);
    }
  }

  lemma {:induction false} SumAppend(a: seq<Entry>, b: seq<Entry>)
    ensures Sum(a + b) == Sum(a) + Sum(b)
  {
    if a == [] {
      assert a + b == b;
    } else {
      assert (a + b)[1..] == a[1..] + b;
      SumAppend(a[1..], b);
    }
  }

  lemma {:induction false} WithinAppend(a: seq<Entry>, e: Entry, t: real)
    ensures Within(a + [e], t) == Within(a, t) + (if t - DAY < e.ts <= t then [e] else [])
  {
    if a != [] {
      assert (a + [e])[1..] == a[1..] + [e];
      WithinAppend(a[1..], e, t);
    }
  }

  /** No window that reaches past `now` holds more than what is kept at `now`. */
  lemma {:induction false} WithinAtMostPruned(a: seq<Entry>, now: real, t: real)
    requires now <= t
    ensures Sum(Within(a, t)) <= Sum(Prune(a, now))
  {
    if a != [] {
      WithinAtMostPruned(a[1..], now, t);
      var head := if t - DAY < a[0].ts <= t then [a[0]] else [];
      var kept := if now - a[0].ts < DAY then [a[0]] else [];
      SumAppend(head, Within(a[1..], t));
      SumAppend(kept, Prune(a[1..], now));
    }
  }

  /** At the present, the window is exactly what pruning keeps. */
  lemma {:induction false} WithinIsPruned(a: seq<Entry>, now: real)
    requires forall i :: 0 <= i < |a| ==> a[i].ts <= now
    ensures Within(a, now) == Prune(a, now)
  {
    if a != [] {
      WithinIsPruned(a[1..], now);
    }
  }

  // ----- the invariant of every run

  /** What is stored for an address prunes, now and ever after, to what all its
      payouts prune to. */
  lemma {:induction false} StoredIsEnough(c: Config, requests: seq<Request>, address: string, now: real)
    requires ClockNeverBack(requests)
    requires forall i :: 0 <= i < |requests| ==> requests[i].now <= now
    ensures Prune(EntriesOf(StateAfter(c, requests), address), now) == Prune(Payouts(c, requests, address), now)
    ensures Sorted(Payouts(c, requests, address), now)
  {
    hide Faucet.NormalizeAddress, Serve, Prune;
    if requests != [] {
      var before, q := requests[..|requests| - 1], requests[|requests| - 1];
      StoredIsEnough(c, before, address, q.now);
      StoredIsEnough(c, before, address, now);
      ServeEffect(c, StateAfter(c, before), q, address);
      if LastResponse(c, requests) == Sent(address) {
        var s, p, e := EntriesOf(StateAfter(c, before), address), Payouts(c, before, address), Entry(q.now, c.amount);
        PruneAppend(Prune(s, q.now), e, now);
        PruneTwice(s, q.now, now);
        PruneAppend(p, e, now);
      }
    }
  }

  /** Daily cap: whatever is asked, in whatever spelling, in no stretch of a day
      does one address receive more than the cap. */
  lemma {:induction false} DailyCap(c: Config, requests: seq<Request>, address: string, t: real)
    requires ClockNeverBack(requests)
    ensures Sum(Within(Payouts(c, requests, address), t)) <= c.cap
  {
    hide Faucet.NormalizeAddress, Serve, Prune, EntriesOf;
    if requests != [] {
      var before, q := requests[..|requests| - 1], requests[|requests| - 1];
      DailyCap(c, before, address, t);
      ServeEffect(c, StateAfter(c, before), q, address);
      if LastResponse(c, requests) == Sent(address) {
        var p, e := Payouts(c, before, address), Entry(q.now, c.amount);
        StoredIsEnough(c, before, address, q.now);
        WithinAppend(p, e, t);
        if q.now <= t {
          WithinAtMostPruned(p, q.now, t);
          SumAppend(Within(p, t), [e]);
          assert Sum([e]) == c.amount;
          assert Within(p, t) + [] == Within(p, t);
        }
      }
    }
  }

  /** No one is refused without cause: a request whose payment would go through
      is answered by what the address really received in the last day. */
  lemma AdmittedExactly(c: Config, requests: seq<Request>, q: Request, address: string)
    requires ClockNeverBack(requests + [q])
    requires Faucet.NormalizeAddress(q.raw) == Some(address) && q.confirmed
    ensures
      var spent := Sum(Within(Payouts(c, requests, address), q.now));
      LastResponse(c, requests + [q]) == Sent(address) <==> spent + c.amount <= c.cap
  {
    var all := requests + [q];
    assert forall i :: 0 <= i < |requests| ==> requests[i] == all[i];
    assert all[..|all| - 1] == requests && all[|all| - 1] == q;
    forall i | 0 <= i < |requests| ensures requests[i].now <= q.now {
      assert all[i].now <= all[|requests|].now;
    }
    StoredIsEnough(c, requests, address, q.now);
    WithinIsPruned(Payouts(c, requests, address), q.now);
  }

  // ----- what a refused caller is told

  ghost predicate UniformAmounts(c: Config, entries: seq<Entry>) {
    forall i :: 0 <= i < |entries| ==> entries[i].amount == c.amount
  }

  lemma {:induction false} PayoutsUniform(c: Config, requests: seq<Request>, address: string)
    ensures UniformAmounts(c, Payouts(c, requests, address))
  {
    hide Serve;
    if requests != [] {
      PayoutsUniform(c, requests[..|requests| - 1], address);
    }
  }

  /** Pruning leaves only what still counts, none of it from before. */
  lemma {:induction false} PruneRange(a: seq<Entry>, now: real, low: real, amount: nat)
    requires forall i :: 0 <= i < |a| ==> low <= a[i].ts <= now && a[i].amount == amount
    ensures
      var r := Prune(a, now);
      forall i :: 0 <= i < |r| ==> low <= r[i].ts <= now && r[i].amount == amount && now - r[i].ts < DAY
  {
    if a != [] {
      PruneRange(a[1..], now, low, amount);
      PruneHead(a, now);
    }
  }

  /** Pruning keeps the order and the amounts. */
  lemma {:induction false} PruneKeeps(c: Config, a: seq<Entry>, now: real)
    requires Sorted(a, now) && UniformAmounts(c, a)
    ensures Sorted(Prune(a, now), now) && UniformAmounts(c, Prune(a, now))
    ensures forall i :: 0 <= i < |Prune(a, now)| ==> now - Prune(a, now)[i].ts < DAY
  {
    if a != [] {
      PruneKeeps(c, a[1..], now);
      PruneRange(a[1..], now, a[0].ts, c.amount);
      PruneHead(a, now);
    }
  }

  lemma {:induction false} PruneNone(a: seq<Entry>, now: real)
    requires forall i :: 0 <= i < |a| ==> now - a[i].ts < DAY
    ensures Prune(a, now) == a
  {
    if a != [] {
      PruneNone(a[1..], now);
    }
  }

  lemma {:induction false} PruneSum(a: seq<Entry>, now: real)
    ensures Sum(Prune(a, now)) <= Sum(a)
  {
    if a != [] {
      PruneSum(a[1..], now);
      PruneHead(a, now);
      assert ([a[0]] + Prune(a[1..], now))[1..] == Prune(a[1..], now);
    }
  }

  /** A refused caller who comes back exactly when told is served if and only if
      something is counted against the address and the oldest of it expires a
      whole number of seconds ahead: the wait is rounded down, so otherwise the
      oldest payout still counts by the fraction cut off. */
  lemma RetryHonoured(c: Config, requests: seq<Request>, q: Request, address: string, retry: Request)
    requires ClockNeverBack(requests + [q])
    requires Faucet.NormalizeAddress(q.raw) == Some(address)
    requires LastResponse(c, requests + [q]).TooManyRequests?
    requires Faucet.NormalizeAddress(retry.raw) == Some(address) && retry.confirmed
    requires retry.now == q.now + LastResponse(c, requests + [q]).retryAfter as real
    ensures
      var counted := Within(Payouts(c, requests, address), q.now);
      LastResponse(c, requests + [q] + [retry]) == Sent(address)
      <==> counted != [] && IsWhole(counted[0].ts - q.now)
  {
    hide Faucet.NormalizeAddress, Serve, LastResponse, Payouts, RetryAfter, Prune, Within, Sum;
    hide IsWhole, ClockNeverBack, Sorted, UniformAmounts;
    Refused(c, requests, q, address);
    var asked, paid := requests + [q], Payouts(c, requests, address);
    PayoutsUniform(c, requests, address);
    StillCounted(c, paid, q.now, retry.now);
    LaterClock(asked, retry);
    AdmittedExactly(c, asked, retry, address);
    RetryCounts(c, Prune(paid, q.now), q.now, retry.now);
  }

  /** What counts later is what counts now and has not expired since. */
  lemma StillCounted(c: Config, paid: seq<Entry>, now: real, later: real)
    requires Sorted(paid, now) && UniformAmounts(c, paid)
    requires later == now + RetryAfter(Prune(paid, now), now) as real
    ensures now <= later
    ensures Within(paid, now) == Prune(paid, now) && Within(paid, later) == Prune(Prune(paid, now), later)
    ensures Sorted(Prune(paid, now), now) && UniformAmounts(c, Prune(paid, now))
    ensures forall i :: 0 <= i < |Prune(paid, now)| ==> now - Prune(paid, now)[i].ts < DAY
  {
    hide Prune, Within;
    PruneKeeps(c, paid, now);
    RetryAhead(Prune(paid, now), now);
    WithinIsPruned(paid, now);
    WithinIsPruned(paid, later);
    PruneTwice(paid, now, later);
  }

  lemma RetryAhead(counted: seq<Entry>, now: real)
    requires forall i :: 0 <= i < |counted| ==> now - counted[i].ts < DAY
    ensures RetryAfter(counted, now) >= 0
  {
  }

  const SOME_ADDRESS: string := "ark1" + seq(38, _ => 'q')

  lemma SomeAddressIsAddress()
    ensures Faucet.NormalizeAddress(SOME_ADDRESS) == Some(SOME_ADDRESS)
  {
    assert SOME_ADDRESS[..4] == "ark1" == Faucet.HRP + "1";
    assert Faucet.MatchesBech32(SOME_ADDRESS);
    hide Faucet.MatchesBech32, Faucet.Strip, SOME_ADDRESS;
    Faucet.NothingToStrip(SOME_ADDRESS);
  }

  lemma LastOf(c: Config, requests: seq<Request>, q: Request)
    ensures StateAfter(c, requests + [q]) == Serve(c, StateAfter(c, requests), q).0
    ensures LastResponse(c, requests + [q]) == Serve(c, StateAfter(c, requests), q).1
  {
    hide Serve;
    assert (requests + [q])[..|requests|] == requests;
  }

  /** A caller paid at 0.5 and refused at 1.0 is told 86399 seconds, comes back
      just then, half a second before the payout expires, and is refused again. */
  lemma RetryTooEarly()
    ensures
      var c := Config(10, 10);
      var first, second := [Request(SOME_ADDRESS, 0.5, true)], [Request(SOME_ADDRESS, 1.0, true)];
      var retry := [Request(SOME_ADDRESS, 86400.0, true)];
      && LastResponse(c, first) == Sent(SOME_ADDRESS)
      && LastResponse(c, first + second) == TooManyRequests(86399)
      && LastResponse(c, first + second + retry) == TooManyRequests(0)
  {
    var c := Config(10, 10);
    assert StateAfter(c, []) == map[];
    SomeAddressIsAddress();
    hide Faucet.NormalizeAddress, SOME_ADDRESS, LastResponse, StateAfter;
    var first, second := Request(SOME_ADDRESS, 0.5, true), Request(SOME_ADDRESS, 1.0, true);
    var retry := Request(SOME_ADDRESS, 86400.0, true);
    LastOf(c, [], first);
    LastOf(c, [first], second);
    LastOf(c, [first] + [second], retry);
    assert [] + [first] == [first];
    var paid := [Entry(0.5, 10)];
    assert Sum(paid) == 10 && Prune(paid, 1.0) == paid && Prune(paid, 86400.0) == paid;
  }

  predicate IsWhole(x: real) {
    x.Floor as real == x
  }

  lemma LaterClock(asked: seq<Request>, retry: Request)
    requires asked != [] && ClockNeverBack(asked) && asked[|asked| - 1].now <= retry.now
    ensures ClockNeverBack(asked + [retry])
  {
  }

  /** A refusal leaves no trace, and happens within the cap. */
  lemma Refused(c: Config, requests: seq<Request>, q: Request, address: string)
    requires ClockNeverBack(requests + [q])
    requires Faucet.NormalizeAddress(q.raw) == Some(address)
    requires LastResponse(c, requests + [q]).TooManyRequests?
    ensures Payouts(c, requests + [q], address) == Payouts(c, requests, address)
    ensures Sorted(Payouts(c, requests, address), q.now)
    ensures
      var counted := Prune(Payouts(c, requests, address), q.now);
      && Sum(counted) <= c.cap < Sum(counted) + c.amount
      && LastResponse(c, requests + [q]).retryAfter == RetryAfter(counted, q.now)
  {
    hide Faucet.NormalizeAddress, Prune;
    var all := requests + [q];
    assert forall i :: 0 <= i < |requests| ==> requests[i] == all[i];
    assert all[..|all| - 1] == requests && all[|all| - 1] == q;
    forall i | 0 <= i < |requests| ensures requests[i].now <= q.now {
      assert all[i].now <= all[|requests|].now;
    }
    StoredIsEnough(c, requests, address, q.now);
    WithinIsPruned(Payouts(c, requests, address), q.now);
    DailyCap(c, requests, address, q.now);
  }

  lemma RetryCounts(c: Config, counted: seq<Entry>, now: real, later: real)
    requires Sorted(counted, now) && UniformAmounts(c, counted)
    requires forall i :: 0 <= i < |counted| ==> now - counted[i].ts < DAY
    requires Sum(counted) <= c.cap < Sum(counted) + c.amount
    requires later == now + RetryAfter(counted, now) as real
    ensures Sum(Prune(counted, later)) + c.amount <= c.cap <==> counted != [] && IsWhole(counted[0].ts - now)
  {
    if counted != [] {
      var wait := DAY - (now - counted[0].ts);
      WholeWait(counted[0].ts - now);
      assert later - counted[0].ts == DAY - wait + wait.Floor as real;
      if IsWhole(counted[0].ts - now) {
        PruneSum(counted[1..], later);
        assert Prune(counted, later) == Prune(counted[1..], later);
      } else {
        PruneNone(counted, later);
      }
    }
  }

  lemma WholeWait(x: real)
    ensures IsWhole(x) <==> IsWhole(DAY + x)
  {
    FloorShift(x, 86400);
  }

  lemma FloorShift(x: real, n: int)
    ensures (n as real + x).Floor == n + x.Floor
  {
    var f := x.Floor;
    assert f as real <= x < f as real + 1.0;
    assert (n + f) as real == n as real + f as real;
  }
}
