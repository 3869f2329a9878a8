/** x/govtimelock's EndBlocker, working on x/gov's store and the keeper in place. */
module EndBlocker {
  import opened Options
  import opened OrderedKeys
  import opened TimelockChain
  import opened TimelockKeeper
  import opened TimelockOutcomes

  /** The x/gov keeper and the application store behind it. */
  class GovKeeper {
    var proposals: map<nat, Proposal>
    var nextId: nat
    var inactiveQueue: set<Key>
    var activeQueue: set<Key>
    var deposits: map<nat, nat>
    var app: App
    ghost var trace: Trace

    constructor (g: Gov)
      ensures Store() == g && trace == EMPTY_TRACE
    {
      proposals, nextId, inactiveQueue, activeQueue, deposits, app :=
        g.proposals, g.nextId, g.inactive, g.active, g.deposits, g.app;
      trace := EMPTY_TRACE;
    }

    ghost function Store(): Gov
      reads this
    {
      Gov(proposals, nextId, inactiveQueue, activeQueue, deposits, app)
    }

    /** Pays out and forgets whatever is deposited for a proposal. */
    method SettleDeposits(id: nat, kind: Kind)
      modifies this
      ensures Store() == old(Store()).(deposits := old(deposits) - {id})
      ensures trace == old(trace).(settled := old(trace).settled
                + [Payment(id, if id in old(deposits) then old(deposits)[id] else 0, kind)])
    {
      ghost var amount := Held(Store(), id);
      deposits := deposits - {id};
      trace := trace.(settled := trace.settled + [Payment(id, amount, kind)]);
    }

    method Delete(id: nat)
      modifies this
      ensures Store() == old(Store()).(proposals := old(proposals) - {id},
                inactive := WithoutId(old(inactiveQueue), id), active := WithoutId(old(activeQueue), id))
      ensures trace == old(trace)
    {
      proposals := proposals - {id};
      inactiveQueue := set k | k in inactiveQueue && k.id != id;
      activeQueue := set k | k in activeQueue && k.id != id;
    }

    method RunVotingPeriodEndedHook(id: nat, env: Env)
      modifies this
      ensures var r := env.hookEnded(id, old(app));
        Store() == old(Store()).(app := if r.ok then r.app else old(app))
      ensures trace == old(trace).(hooks := old(trace).hooks + multiset{id})
    {
      var r := env.hookEnded(id, app);
      if r.ok {
        app := r.app;
      }
      trace := trace.(hooks := trace.hooks + multiset{id});
    }

    method FailUnsupportedProposal(id: nat)
      modifies this
      ensures Store() == old(Store()).(
                proposals := old(proposals)[id := Proposal(Failed, false, 0, true, Some([]))],
                deposits := old(deposits) - {id})
      ensures trace == old(trace).(settled := old(trace).settled
                + [Payment(id, if id in old(deposits) then old(deposits)[id] else 0, Refund)])
    {
      proposals := proposals[id := FAILED_RECORD];
      SettleDeposits(id, Refund);
    }

    /** Runs the messages in a cache and writes it back only if all succeed. */
    method ExecuteProposal(p: Proposal, env: Env) returns (executed: Proposal)
      modifies this`app
      ensures executed == p.(status := Passed) || executed == p.(status := Failed)
      ensures executed.status == Passed ==>
        p.messages.Some?
        && exists states ::
             AllSucceed(env, states, p.messages.value)
             && states[0] == old(app) && states[|p.messages.value|] == app
      ensures executed.status == Failed ==>
        app == old(app)
        && (p.messages.Some? ==>
              forall states :: AllSucceed(env, states, p.messages.value) ==> states[0] != old(app))
      ensures match RunProposal(env, old(app), p)
        case Some(a) => app == a && executed == p.(status := Passed)
        case None => app == old(app) && executed == p.(status := Failed)
    {
      hide AllSucceed;
      RunProposalFails(env, app, p);
      if p.messages.None? {
        return p.(status := Failed);
      }
      var messages := p.messages.value;
      var cache, idx := app, 0;
      while idx < |messages|
        invariant 0 <= idx <= |messages| && app == old(app)
        invariant RunMessages(env, app, messages) == RunMessages(env, cache, messages[idx..])
      {
        var ok;
        cache, ok := SafeExecuteHandler(cache, env.router(messages[idx]));
        if !ok {
          return p.(status := Failed);
        }
        idx := idx + 1;
      }
      RunProposalMeaning(env, app, p, cache);
      app := cache;
      return p.(status := Passed);
    }
  }

  /** A missing handler and a panic both count as errors; what the handler wrote
      before failing stays in the cache. */
  method SafeExecuteHandler(cache: App, handler: Option<App -> HandlerResult>) returns (after: App, ok: bool)
    ensures ok <==> handler.Some? && handler.value(cache).Done?
    ensures ok ==> after == handler.value(cache).app
  {
    if handler.None? {
      return cache, false;
    }
    match handler.value(cache)
    case Done(a) => return a, true;
    case Errored(a) => return a, false;
    case Panicked(a) => return a, false;
  }

  ghost function State(gov: GovKeeper, timelock: Keeper): Chain
    reads gov, timelock
  {
    Chain(gov.Store(), timelock.Contents(), gov.trace)
  }

  method ProcessInactiveProposals(gov: GovKeeper, now: int, env: Env, ghost l: Lock) returns (ok: bool)
    modifies gov
    ensures ok <==> Inactivated(old(Chain(gov.Store(), l, gov.trace)), now, env).Some?
    ensures ok ==>
      Inactivated(old(Chain(gov.Store(), l, gov.trace)), now, env) == Some(Chain(gov.Store(), l, gov.trace))
  {
    hide InactiveStep, Listing, UpTo;
    ghost var c := Chain(gov.Store(), l, gov.trace);
    var keys := IterateUntil(gov.inactiveQueue, now);
    for i := 0 to |keys|
      invariant InactiveLoop(c, keys[..i], env) == Some(Chain(gov.Store(), l, gov.trace))
    {
      assert keys[..i + 1][..i] == keys[..i];
      ok := DropOne(gov, keys[i], env, l);
      if !ok {
        InactiveLoopStops(c, keys, i + 1, env);
        return false;
      }
    }
    assert keys[..|keys|] == keys;
    ok := true;
  }

  /** The body of the loop over under-deposited proposals. */
  method DropOne(gov: GovKeeper, key: Key, env: Env, ghost l: Lock) returns (ok: bool)
    modifies gov
    ensures ok <==> InactiveStep(old(Chain(gov.Store(), l, gov.trace)), key, env).Some?
    ensures ok ==>
      InactiveStep(old(Chain(gov.Store(), l, gov.trace)), key, env) == Some(Chain(gov.Store(), l, gov.trace))
  {
    var id := key.id;
    if id !in gov.proposals {
      return false;
    }
    if !gov.proposals[id].decodable {
      gov.FailUnsupportedProposal(id);
      gov.inactiveQueue := gov.inactiveQueue - {key};
      gov.Delete(id);
    } else {
      gov.Delete(id);
      if !env.burnPrevote(id) {
        gov.SettleDeposits(id, Refund);
      } else {
        gov.SettleDeposits(id, Burn);
      }
      var r := env.hookDropped(id, gov.app);
      if r.ok {
        gov.app := r.app;
      }
    }
    ok := true;
  }

  lemma {:induction false} InactiveLoopStops(c: Chain, keys: seq<Key>, i: nat, env: Env)
    requires i <= |keys| && InactiveLoop(c, keys[..i], env).None?
    ensures InactiveLoop(c, keys, env).None?
    decreases |keys|
  {
    if i == |keys| {
      assert keys[..i] == keys;
    } else {
      assert keys[..|keys| - 1][..i] == keys[..i];
      InactiveLoopStops(c, keys[..|keys| - 1], i, env);
    }
  }

  lemma {:induction false} TallyLoopStops(c: Chain, keys: seq<Key>, i: nat, now: int, active: bool, env: Env)
    requires i <= |keys| && TallyLoop(c, keys[..i], now, active, env).None?
    ensures TallyLoop(c, keys, now, active, env).None?
    decreases |keys|
  {
    if i == |keys| {
      assert keys[..i] == keys;
    } else {
      assert keys[..|keys| - 1][..i] == keys[..i];
      TallyLoopStops(c, keys[..|keys| - 1], i, now, active, env);
    }
  }

  method ProcessEndedVotingPeriods(gov: GovKeeper, timelock: Keeper, now: int, active: bool, env: Env)
      returns (ok: bool)
    modifies gov, timelock
    ensures ok <==> AfterTally(old(State(gov, timelock)), now, active, env).Some?
    ensures ok ==> AfterTally(old(State(gov, timelock)), now, active, env) == Some(State(gov, timelock))
  {
    hide TallyStep, Listing, UpTo;
    ghost var c := State(gov, timelock);
    var keys := IterateUntil(gov.activeQueue, now);
    var delay, delayLoaded := 0, false;
    for i := 0 to |keys|
      invariant TallyLoop(c, keys[..i], now, active, env) == Some(State(gov, timelock))
      invariant delayLoaded ==> delay == EffectiveDelay(timelock.Contents())
    {
      assert keys[..i + 1][..i] == keys[..i];
      ok, delay, delayLoaded := TallyOne(gov, timelock, keys[i], now, active, delay, delayLoaded, env);
      if !ok {
        TallyLoopStops(c, keys, i + 1, now, active, env);
        return false;
      }
    }
    assert keys[..|keys|] == keys;
    ok := true;
  }

  /** The body of the tally loop; the delay is loaded at most once per loop. */
  method TallyOne(gov: GovKeeper, timelock: Keeper, key: Key, now: int, active: bool,
                  cachedDelay: int, cached: bool, env: Env)
      returns (ok: bool, delay: int, delayLoaded: bool)
    requires cached ==> cachedDelay == EffectiveDelay(timelock.Contents())
    modifies gov, timelock
    ensures ok <==> TallyStep(old(State(gov, timelock)), key, now, active, env).Some?
    ensures ok ==> TallyStep(old(State(gov, timelock)), key, now, active, env) == Some(State(gov, timelock))
    ensures delayLoaded ==> delay == EffectiveDelay(timelock.Contents())
  {
    hide Concluded, CountedAndSettled;
    ok, delay, delayLoaded := true, cachedDelay, cached;
    var id := key.id;
    if id !in gov.proposals {
      return false, delay, delayLoaded;
    }
    var p := gov.proposals[id];
    if !p.decodable {
      gov.FailUnsupportedProposal(id);
      gov.activeQueue := gov.activeQueue - {key};
      return;
    }
    CountAndSettle(gov, key, p.expedited, env);
    delay, delayLoaded := Conclude(gov, timelock, id, p, now, active, delay, delayLoaded, env);
  }

  method CountAndSettle(gov: GovKeeper, key: Key, expedited: bool, env: Env)
    modifies gov
    ensures forall l ::
      Chain(gov.Store(), l, gov.trace)
        == CountedAndSettled(old(Chain(gov.Store(), l, gov.trace)), key, expedited, env)
  {
    var id := key.id;
    var t := env.tally(id);
    gov.trace := gov.trace.(tallied := gov.trace.tallied + multiset{id});
    if !expedited || t.passes {
      if t.burnDeposits {
        gov.SettleDeposits(id, Burn);
      } else {
        gov.SettleDeposits(id, Refund);
      }
    }
    gov.activeQueue := gov.activeQueue - {key};
  }

  method Conclude(gov: GovKeeper, timelock: Keeper, id: nat, proposal: Proposal, now: int, active: bool,
                  cachedDelay: int, cached: bool, env: Env)
      returns (delay: int, delayLoaded: bool)
    requires cached ==> cachedDelay == EffectiveDelay(timelock.Contents())
    modifies gov, timelock
    ensures State(gov, timelock) == Concluded(old(State(gov, timelock)), id, proposal, now, active, env)
    ensures delayLoaded ==> delay == EffectiveDelay(timelock.Contents())
  {
    hide AllSucceed, RunMessages, RunProposal;
    delay, delayLoaded := cachedDelay, cached;
    var p, scheduledForLater := proposal, false;
    var passes := env.tally(id).passes;
    if passes && !active {
      p := gov.ExecuteProposal(p, env);
      gov.trace := gov.trace.(spot := gov.trace.spot + [Ran(now, Key(now, id))]);
    } else if passes {
      if !delayLoaded {
        delay := timelock.GetExecutionDelay(MINIMUM_DELAY);
        delayLoaded := true;
      }
      var executionTime := now + delay;
      timelock.Schedule(id, executionTime);
      gov.trace := gov.trace.(passes := gov.trace.passes + [Pass(now, Key(executionTime, id))]);
      p := p.(status := Passed);
      scheduledForLater := true;
    } else if p.expedited {
      p := p.(expedited := false);
      gov.trace := gov.trace.(converted := gov.trace.converted + multiset{id});
      gov.activeQueue := gov.activeQueue + {Key(p.votingStart + env.votingPeriod(id), id)};
    } else {
      p := p.(status := Rejected);
    }
    gov.proposals := gov.proposals[id := p];
    if !scheduledForLater {
      gov.RunVotingPeriodEndedHook(id, env);
    }
  }

  method ExecuteMaturedProposals(gov: GovKeeper, timelock: Keeper, now: int, env: Env)
    modifies gov, timelock
    ensures State(gov, timelock) == Matured(old(State(gov, timelock)), now, env)
  {
    hide MatureStep, Listing, UpTo;
    ghost var c := State(gov, timelock);
    ghost var keys := Listing(UpTo(c.lock.schedule, now));
    var due := timelock.Due(now);
    for i := 0 to |due|
      invariant State(gov, timelock) == MatureLoop(c, keys[..i], now, env)
    {
      assert keys[..i + 1][..i] == keys[..i];
      MatureOne(gov, timelock, due[i], now, env);
    }
    assert keys[..|due|] == keys;
  }

  /** The body of the matured loop: no entry, whatever it names, stops the block. */
  method MatureOne(gov: GovKeeper, timelock: Keeper, scheduled: ScheduledProposal, now: int, env: Env)
    modifies gov, timelock
    ensures State(gov, timelock) == MatureStep(old(State(gov, timelock)), EntryKey(scheduled), now, env)
  {
    var id := scheduled.proposalId;
    if id !in gov.proposals || !gov.proposals[id].decodable {
      if id in gov.proposals {
        gov.proposals := gov.proposals[id := FAILED_RECORD];
      }
      gov.RunVotingPeriodEndedHook(id, env);
      timelock.Remove(scheduled.executionTime, id);
      return;
    }
    if gov.proposals[id].status != Passed {
      gov.RunVotingPeriodEndedHook(id, env);
      timelock.Remove(scheduled.executionTime, id);
      return;
    }
    var p := gov.ExecuteProposal(gov.proposals[id], env);
    gov.proposals := gov.proposals[id := p];
    timelock.Remove(scheduled.executionTime, id);
    gov.trace := gov.trace.(matured := gov.trace.matured + [Ran(now, EntryKey(scheduled))]);
    gov.RunVotingPeriodEndedHook(id, env);
  }

  method EndBlock(gov: GovKeeper, timelock: Keeper, height: int, now: int, env: Env) returns (ok: bool)
    modifies gov, timelock
    ensures ok <==> TimelockChain.EndBlock(old(State(gov, timelock)), height, now, env).Some?
    ensures ok ==>
      TimelockChain.EndBlock(old(State(gov, timelock)), height, now, env) == Some(State(gov, timelock))
  {
    var active := timelock.IsActive(height);
    ok := ProcessInactiveProposals(gov, now, env, timelock.Contents());
    if !ok {
      return;
    }
    ok := ProcessEndedVotingPeriods(gov, timelock, now, active, env);
    if !ok || !active {
      return;
    }
    ExecuteMaturedProposals(gov, timelock, now, env);
  }
}
