/** What the timelock promises over a whole run. */
module TimelockTheorems {
  import opened Options
  import opened OrderedKeys
  import opened TimelockChain
  import opened TimelockInvariant
  import opened TimelockBlock
  import opened TimelockAccounts
  import opened TimelockRun

  /** Messages run only in a block whose time has reached the entry's, at most
      once per proposal however the run interleaves spot and matured execution;
      an entry scheduled during the run waited the full delay. */
  lemma NeverEarlyNeverTwice(c: Chain, height: int, start: int, blocks: seq<Block>)
    requires Fresh(c) && start > 0 && height > 0 && Timely(start, blocks)
    ensures Run(c, height, blocks).Some?
    ensures var t := Run(c, height, blocks).value.trace;
      && DistinctIds(t.matured + t.spot)
      && (forall r :: r in t.matured ==> r.at >= r.key.time)
      && (forall r :: r in t.matured && r.key !in c.lock.schedule ==>
            exists p :: p in t.passes && p.key == r.key && start <= p.at
                        && r.at >= p.at + EffectiveDelay(c.lock) > p.at)
  {
    hide Run;
    AnyRunKeeps(c, height, start, blocks);
    var e := Run(c, height, blocks).value;
    forall r | r in e.trace.matured && r.key !in c.lock.schedule
      ensures exists p :: p in e.trace.passes && p.key == r.key && start <= p.at
                          && r.at >= p.at + EffectiveDelay(c.lock) > p.at
    {
      assert Accounted(e, c.lock.schedule, r.key);
      var p := Pass(r.key.time - EffectiveDelay(e.lock), r.key);
      assert p in e.trace.passes && p.key == r.key;
    }
  }

  /** Matured proposals run in key order over the whole run, so those scheduled
      during it run in the order of the block time they passed at, then id. */
  lemma ExecutionOrder(c: Chain, height: int, start: int, blocks: seq<Block>, p: Pass, q: Pass, i: nat, j: nat)
    requires Fresh(c) && start > 0 && height > 0 && Timely(start, blocks)
    requires Run(c, height, blocks).Some?
    requires var t := Run(c, height, blocks).value.trace;
      && i < |t.matured| && j < |t.matured|
      && p in t.passes && q in t.passes && p.key == t.matured[i].key && q.key == t.matured[j].key
    ensures i < j <==> p.at < q.at || (p.at == q.at && p.key.id < q.key.id)
  {
    hide Run;
    AnyRunKeeps(c, height, start, blocks);
    var e := Run(c, height, blocks).value;
    assert InKeyOrder(e.trace.matured) && DelayedBy(e, p) && DelayedBy(e, q) by {
      hide GovInv, LockInv;
    }
    hide RunInv;
  }

  ghost predicate DelayedBy(e: Chain, p: Pass) {
    p.key.time == p.at + EffectiveDelay(e.lock)
  }

  /** In every reachable state each scheduled proposal is scheduled once and is
      in neither queue of x/gov; unless something outside touched a finished
      proposal, it is also StatusPassed there. */
  lemma ScheduleConsistent(c: Chain, height: int, start: int, blocks: seq<Block>)
    requires Fresh(c) && start > 0 && height > 0 && Timely(start, blocks)
    ensures Run(c, height, blocks).Some?
    ensures var e := Run(c, height, blocks).value;
      && OneKeyPerId(e.lock.schedule)
      && (forall k :: k in e.lock.schedule ==> k.id !in Ids(e.gov.inactive) + Ids(e.gov.active))
      && (AllPassed(c) && AllRespect(blocks, UNDISTURBED) ==> AllPassed(e))
  {
    hide Run;
    AnyRunKeeps(c, height, start, blocks);
    if AllPassed(c) && AllRespect(blocks, UNDISTURBED) {
      RunKeeps(c, height, start, blocks, UNDISTURBED);
    }
  }

  /** Finished proposals are left alone. */
  const UNDISTURBED := Setting(true, false)

  /** Every tally is answered by exactly one attempt to fire the voting-ended
      hook, at once or when the schedule entry is consumed, be its proposal run,
      missing, undecodable or off StatusPassed by then. */
  lemma HookAccounting(c: Chain, height: int, start: int, blocks: seq<Block>, id: nat)
    requires Fresh(c) && c.lock.schedule == {}
    requires start > 0 && height > 0 && Timely(start, blocks)
    ensures Run(c, height, blocks).Some?
    ensures var e := Run(c, height, blocks).value;
      e.trace.tallied[id] == e.trace.hooks[id] + if Scheduled(e.lock, id) then 1 else 0
  {
    hide Run;
    AnyRunKeeps(c, height, start, blocks);
    assert HookDebt(c, id) == 0;
  }

  /** A deposit is held in full while its proposal is open, and paid out in
      full, once, when it closes; nothing is paid out for any other proposal. */
  lemma DepositsSettledOnce(c: Chain, height: int, start: int, blocks: seq<Block>, id: nat)
    requires Fresh(c) && start > 0 && height > 0 && Timely(start, blocks)
    ensures Run(c, height, blocks).Some?
    ensures var e := Run(c, height, blocks).value;
      var paidIn := Held(c.gov, id) + Total(e.trace.deposited, id);
      if Open(e.gov, id) then
        Held(e.gov, id) == paidIn && Count(e.trace.settled, id) == 0
      else
        && Held(e.gov, id) == 0 && Total(e.trace.settled, id) == paidIn
        && Count(e.trace.settled, id) == if Opened(c.gov, e.gov, id) then 1 else 0
    ensures Run(c, height, blocks).value.trace.converted[id] <= 1
  {
    hide Run;
    AnyRunKeeps(c, height, start, blocks);
    var e := Run(c, height, blocks).value;
    NothingSettled(e.trace.settled, id);
  }

  lemma {:induction false} NothingSettled(payments: seq<Payment>, id: nat)
    ensures Count(payments, id) == 0 ==> Total(payments, id) == 0
  {
    if payments != [] {
      NothingSettled(payments[..|payments| - 1], id);
    }
  }

  // ----- the wait

  /** With the default delay or a longer one, every proposal that passes waits
      48 hours before its messages run. */
  lemma FullWait(c: Chain, height: int, start: int, blocks: seq<Block>)
    requires Fresh(c) && start > 0 && height > 0 && Timely(start, blocks)
    requires c.lock.delay.None? || c.lock.delay.value >= 172_800_000_000_000
    ensures Run(c, height, blocks).Some?
    ensures var t := Run(c, height, blocks).value.trace;
      && (forall p :: p in t.passes ==> p.key.time >= p.at + 172_800_000_000_000)
      && (forall r :: r in t.matured && r.key !in c.lock.schedule ==>
            exists p :: p in t.passes && p.key == r.key && r.at >= p.at + 172_800_000_000_000)
  {
    hide Run;
    AnyRunKeeps(c, height, start, blocks);
    NeverEarlyNeverTwice(c, height, start, blocks);
    assert EffectiveDelay(c.lock) >= 172_800_000_000_000;
  }

  // ----- the batch of one block

  /** The application after a matured batch: hooks aside, the composition of
      exactly the runnable proposals whose every message succeeded. */
  ghost function BatchApp(g: Gov, app: App, keys: seq<Key>, env: Env): App {
    if keys == [] then app
    else
      var before := BatchApp(g, app, keys[..|keys| - 1], env);
      var id := keys[|keys| - 1].id;
      var after := Outcome(g, before, id, env);
      Committed(after, env.hookEnded(id, after))
  }

  /** All of a runnable proposal's writes, if every message succeeds; else none. */
  ghost function Outcome(g: Gov, app: App, id: nat, env: Env): App {
    if Applies(g, app, id, env) then RunProposal(env, app, g.proposals[id]).value else app
  }

  predicate Applies(g: Gov, app: App, id: nat, env: Env) {
    Runnable(g, id) && RunProposal(env, app, g.proposals[id]).Some?
  }

  /** The record an entry's proposal ends with, given the state it was run in. */
  ghost function Verdict(g: Gov, app: App, id: nat, env: Env): Option<Proposal> {
    if id !in g.proposals then None
    else if !g.proposals[id].decodable then Some(FAILED_RECORD)
    else if g.proposals[id].status != Passed then Some(g.proposals[id])
    else Some(g.proposals[id].(status := if Applies(g, app, id, env) then Passed else Failed))
  }

  ghost function Record(g: Gov, id: nat): Option<Proposal> {
    if id in g.proposals then Some(g.proposals[id]) else None
  }

  ghost function RunnableRuns(g: Gov, keys: seq<Key>, now: int): seq<Ran> {
    if keys == [] then []
    else
      RunnableRuns(g, keys[..|keys| - 1], now)
        + if Runnable(g, keys[|keys| - 1].id) then [Ran(now, keys[|keys| - 1])] else []
  }

  /** Each proposal of the batch got the verdict its turn called for. */
  ghost predicate Judged(g: Gov, g': Gov, keys: seq<Key>, env: Env, app: App) {
    forall i :: 0 <= i < |keys| ==>
      Record(g', keys[i].id) == Verdict(g, BatchApp(g, app, keys[..i], env), keys[i].id, env)
  }

  /** Whatever the entries name, each proposal of the batch is judged on the
      record it had before the batch, its own messages being applied as a whole
      or not at all, and none disturbs another's record. */
  lemma {:induction false} BatchAtomicity(c: Chain, keys: seq<Key>, now: int, env: Env)
    requires DistinctKeyIds(keys)
    ensures var c' := MatureLoop(c, keys, now, env);
      && c'.gov.app == BatchApp(c.gov, c.gov.app, keys, env)
      && c'.gov.deposits == c.gov.deposits && c'.trace.settled == c.trace.settled
      && c'.trace.matured == c.trace.matured + RunnableRuns(c.gov, keys, now)
      && (forall id: nat :: !Owned(keys, id) ==> Record(c'.gov, id) == Record(c.gov, id))
      && Judged(c.gov, c'.gov, keys, env, c.gov.app)
  {
    hide MatureStep, Verdict, Outcome, Runnable;
    if keys != [] {
      var n := |keys| - 1;
      LastIsNew(keys);
      BatchAtomicity(c, keys[..n], now, env);
      var b := MatureLoop(c, keys[..n], now, env);
      VerdictOfRecord(b.gov, c.gov, b.gov.app, keys[n].id, env);
      BatchStep(b, keys[n], now, env);
      OwnedStep(keys);
      JudgedStep(c.gov, b.gov, MatureLoop(c, keys, now, env).gov, keys, env, c.gov.app);
    }
  }

  lemma JudgedStep(g: Gov, b: Gov, g': Gov, keys: seq<Key>, env: Env, app: App)
    requires keys != [] && DistinctKeyIds(keys)
    requires Judged(g, b, keys[..|keys| - 1], env, app)
    requires forall id: nat :: id != keys[|keys| - 1].id ==> Record(g', id) == Record(b, id)
    requires var k := keys[|keys| - 1];
      Record(g', k.id) == Verdict(g, BatchApp(g, app, keys[..|keys| - 1], env), k.id, env)
    ensures Judged(g, g', keys, env, app)
  {
    hide Verdict;
    var n := |keys| - 1;
    forall i | 0 <= i < n
      ensures Record(g', keys[i].id) == Verdict(g, BatchApp(g, app, keys[..i], env), keys[i].id, env)
    {
      assert keys[..n][..i] == keys[..i] && keys[..n][i] == keys[i];
    }
  }

  lemma BatchStep(b: Chain, key: Key, now: int, env: Env)
    ensures var c' := MatureStep(b, key, now, env);
      var after := Outcome(b.gov, b.gov.app, key.id, env);
      && c'.gov.app == Committed(after, env.hookEnded(key.id, after))
      && c'.gov.deposits == b.gov.deposits && c'.trace.settled == b.trace.settled
      && c'.trace.matured == b.trace.matured + (if Runnable(b.gov, key.id) then [Ran(now, key)] else [])
      && (forall id: nat :: id != key.id ==> Record(c'.gov, id) == Record(b.gov, id))
      && Record(c'.gov, key.id) == Verdict(b.gov, b.gov.app, key.id, env)
  {
  }

  lemma VerdictOfRecord(b: Gov, g: Gov, app: App, id: nat, env: Env)
    requires Record(b, id) == Record(g, id)
    ensures Verdict(b, app, id, env) == Verdict(g, app, id, env)
    ensures Runnable(b, id) == Runnable(g, id) && Outcome(b, app, id, env) == Outcome(g, app, id, env)
  {
  }

  /** What an active block runs: exactly the entries that were scheduled before
      it and are due, in order, on the records and the application its tallies
      leave; what passes in the block is never among them. */
  lemma BlockBatch(c: Chain, height: int, now: int, env: Env)
    requires GovInv(c.gov) && OneKeyPerId(c.lock.schedule) && Active(c.lock, height)
    ensures Inactivated(c, now, env).Some?
    ensures
      var c1 := Inactivated(c, now, env).value;
      var due := Listing(UpTo(c.lock.schedule, now));
      && (forall k :: k in due <==> k in c.lock.schedule && k.time <= now)
      && AfterTally(c1, now, true, env).Some? && EndBlock(c, height, now, env).Some?
      && var c2, e := AfterTally(c1, now, true, env).value, EndBlock(c, height, now, env).value;
         && e.gov.app == BatchApp(c2.gov, c2.gov.app, due, env)
         && e.trace.matured == c.trace.matured + RunnableRuns(c2.gov, due, now)
         && Judged(c2.gov, e.gov, due, env, c2.gov.app)
  {
    hide InactiveLoop, TallyLoop, MatureLoop, GovInv, BatchApp, RunnableRuns, Judged;
    InactivatedEffect(c, now, env);
    var c1 := Inactivated(c, now, env).value;
    DueIdsDistinct(c1.gov.active, now);
    TallyLoopEffect(c1, Listing(UpTo(c1.gov.active, now)), now, true, env);
    var c2 := AfterTally(c1, now, true, env).value;
    assert UpTo(c2.lock.schedule, now) == UpTo(c.lock.schedule, now);
    var due := Listing(UpTo(c.lock.schedule, now));
    DueIdsDistinct(c.lock.schedule, now);
    BatchAtomicity(c2, due, now, env);
  }
}
