/** What the steps of the EndBlocker do to the books kept over a run: where a
    schedule entry came from, hooks against tallies, and deposits. */
module TimelockAccounts {
  import opened Options
  import opened OrderedKeys
  import opened TimelockChain
  import opened TimelockInvariant

  // ----- where entries come from

  /** An entry is either one of `first` or was scheduled when its proposal passed. */
  ghost predicate Accounted(c: Chain, first: set<Key>, k: Key) {
    k in first || Pass(k.time - EffectiveDelay(c.lock), k) in c.trace.passes
  }

  ghost predicate PassBooks(c: Chain, first: set<Key>, start: int, now: int) {
    && (forall p :: p in c.trace.passes ==> p.key.time == p.at + EffectiveDelay(c.lock) && start <= p.at <= now)
    && (forall k :: k in c.lock.schedule ==> Accounted(c, first, k))
    && (forall r :: r in c.trace.matured ==> Accounted(c, first, r.key))
  }

  lemma TallyPassBooks(c: Chain, key: Key, now: int, active: bool, env: Env, first: set<Key>, start: int)
    requires key.id in c.gov.proposals && PassBooks(c, first, start, now) && start <= now
    ensures PassBooks(TallyStep(c, key, now, active, env).value, first, start, now)
  {
    var c' := TallyStep(c, key, now, active, env).value;
    hide TallyStep;
    TallyLockEffect(c, key, now, active, env);
    assert forall p :: p in c.trace.passes ==> p in c'.trace.passes;
    assert forall k :: Accounted(c, first, k) ==> Accounted(c', first, k);
  }

  lemma MaturePassBooks(c: Chain, key: Key, now: int, env: Env, first: set<Key>, start: int)
    requires PassBooks(c, first, start, now) && key in c.lock.schedule
    ensures PassBooks(MatureStep(c, key, now, env), first, start, now)
  {
    hide MatureStep;
    MatureEffect(c, key, now, env);
    var c' := MatureStep(c, key, now, env);
    assert forall k :: Accounted(c, first, k) ==> Accounted(c', first, k);
  }

  // ----- hooks

  ghost predicate Scheduled(l: Lock, id: nat) {
    exists k :: k in l.schedule && k.id == id
  }

  /** Tallies of a proposal not yet answered by an attempt to fire its hook. */
  ghost function HookDebt(c: Chain, id: nat): int {
    c.trace.tallied[id] as int - c.trace.hooks[id] as int - if Scheduled(c.lock, id) then 1 else 0
  }

  lemma TallyHookDebt(c: Chain, key: Key, now: int, active: bool, env: Env, id: nat)
    requires key.id in c.gov.proposals && !Scheduled(c.lock, key.id)
    ensures HookDebt(TallyStep(c, key, now, active, env).value, id) == HookDebt(c, id)
  {
    TallyHookCounts(c, key, now, active, env);
    var c' := TallyStep(c, key, now, active, env).value;
    hide TallyStep;
    TallyLockEffect(c, key, now, active, env);
    if active && WillPass(c.gov, key.id, env) {
      var entry := Key(now + EffectiveDelay(c.lock), key.id);
      assert entry in c'.lock.schedule;
      assert forall k :: k in c.lock.schedule ==> k in c'.lock.schedule;
      assert forall i :: Scheduled(c'.lock, i) <==> Scheduled(c.lock, i) || i == key.id;
    }
  }

  lemma TallyHookCounts(c: Chain, key: Key, now: int, active: bool, env: Env)
    requires key.id in c.gov.proposals
    ensures var t' := TallyStep(c, key, now, active, env).value.trace;
      && t'.tallied == c.trace.tallied
           + (if c.gov.proposals[key.id].decodable then multiset{key.id} else multiset{})
      && t'.hooks == c.trace.hooks
           + (if c.gov.proposals[key.id].decodable && !(active && WillPass(c.gov, key.id, env))
              then multiset{key.id} else multiset{})
  {
  }

  /** Whatever the consumed entry names. */
  lemma MatureHookDebt(c: Chain, key: Key, now: int, env: Env, id: nat)
    requires OneKeyPerId(c.lock.schedule) && key in c.lock.schedule
    ensures HookDebt(MatureStep(c, key, now, env), id) == HookDebt(c, id)
  {
    hide MatureStep;
    MatureEffect(c, key, now, env);
    var c' := MatureStep(c, key, now, env);
    assert Scheduled(c.lock, key.id);
    forall i ensures Scheduled(c'.lock, i) <==> Scheduled(c.lock, i) && i != key.id {
      if Scheduled(c.lock, i) && i != key.id {
        var k :| k in c.lock.schedule && k.id == i;
        assert k in c'.lock.schedule;
      }
    }
  }

  // ----- deposits

  function Total(payments: seq<Payment>, id: nat): nat {
    if payments == [] then 0
    else
      var last := payments[|payments| - 1];
      Total(payments[..|payments| - 1], id) + if last.id == id then last.amount else 0
  }

  function Count(payments: seq<Payment>, id: nat): nat {
    if payments == [] then 0
    else
      Count(payments[..|payments| - 1], id) + if payments[|payments| - 1].id == id then 1 else 0
  }

  lemma TotalAppend(payments: seq<Payment>, p: Payment, id: nat)
    ensures Total(payments + [p], id) == Total(payments, id) + if p.id == id then p.amount else 0
    ensures Count(payments + [p], id) == Count(payments, id) + if p.id == id then 1 else 0
  {
    assert (payments + [p])[..|payments|] == payments;
  }

  /** Whether `id` held a deposit at some time since `g0`. */
  ghost predicate Opened(g0: Gov, g: Gov, id: nat) {
    if id < g0.nextId then Open(g0, id) else id < g.nextId
  }

  /** For every proposal: what it held at first and was paid since is what it
      holds now plus what was paid out; and it was paid out exactly once if it
      has been open and no longer is, never otherwise. */
  ghost predicate DepositBooks(c: Chain, g0: Gov) {
    && g0.nextId <= c.gov.nextId
    && (forall id: nat :: Held(g0, id) + Total(c.trace.deposited, id)
                          == Held(c.gov, id) + Total(c.trace.settled, id))
    && (forall id: nat :: Open(c.gov, id) ==> Opened(g0, c.gov, id))
    && (forall id: nat :: Count(c.trace.settled, id)
                          == if Opened(g0, c.gov, id) && !Open(c.gov, id) then 1 else 0)
  }

  /** Paying out the deposit of an open proposal while closing it. */
  lemma SettleBooks(c: Chain, c': Chain, g0: Gov, id: nat, kind: Kind)
    requires DepositBooks(c, g0) && Open(c.gov, id) && !Open(c'.gov, id)
    requires forall i: nat :: i != id ==> (Open(c'.gov, i) <==> Open(c.gov, i))
    requires c'.gov.nextId == c.gov.nextId && c'.gov.deposits == c.gov.deposits - {id}
    requires c'.trace.deposited == c.trace.deposited
    requires c'.trace.settled == c.trace.settled + [Payment(id, Held(c.gov, id), kind)]
    ensures DepositBooks(c', g0)
  {
    hide Total, Count;
    forall i: nat
      ensures Held(g0, i) + Total(c'.trace.deposited, i) == Held(c'.gov, i) + Total(c'.trace.settled, i)
      ensures Count(c'.trace.settled, i)
        == if Opened(g0, c'.gov, i) && !Open(c'.gov, i) then 1 else 0
    {
      TotalAppend(c.trace.settled, Payment(id, Held(c.gov, id), kind), i);
      assert i != id ==> Held(c'.gov, i) == Held(c.gov, i);
    }
  }

  /** Steps that pay nothing and open or close nothing. */
  lemma QuietBooks(c: Chain, c': Chain, g0: Gov)
    requires DepositBooks(c, g0)
    requires forall i: nat :: Open(c'.gov, i) <==> Open(c.gov, i)
    requires c'.gov.nextId == c.gov.nextId && c'.gov.deposits == c.gov.deposits
    requires c'.trace.deposited == c.trace.deposited && c'.trace.settled == c.trace.settled
    ensures DepositBooks(c', g0)
  {
    assert forall i: nat :: Held(c'.gov, i) == Held(c.gov, i);
  }

  lemma InactiveDeposit(c: Chain, key: Key, env: Env, g0: Gov)
    requires GovInv(c.gov) && key in c.gov.inactive && DepositBooks(c, g0)
    ensures DepositBooks(InactiveStep(c, key, env).value, g0)
  {
    InactivePayment(c, key, env);
    var kind := if c.gov.proposals[key.id].decodable && env.burnPrevote(key.id) then Burn else Refund;
    InactiveEffect(c, key, env);
    hide InactiveStep, DepositBooks;
    assert HasStatus(c.gov, key.id, DepositPeriod);
    SettleBooks(c, InactiveStep(c, key, env).value, g0, key.id, kind);
  }

  /** A dropped proposal's deposit is burned only if the parameters say so and
      its record still decodes. */
  lemma InactivePayment(c: Chain, key: Key, env: Env)
    requires key.id in c.gov.proposals
    ensures var t' := InactiveStep(c, key, env).value.trace;
      var burned := c.gov.proposals[key.id].decodable && env.burnPrevote(key.id);
      && t'.deposited == c.trace.deposited
      && t'.settled == c.trace.settled
           + [Payment(key.id, Held(c.gov, key.id), if burned then Burn else Refund)]
  {
  }

  lemma TallyDeposit(c: Chain, key: Key, now: int, active: bool, env: Env, g0: Gov)
    requires GovInv(c.gov) && key in c.gov.active && DepositBooks(c, g0)
    ensures TallyStep(c, key, now, active, env).Some?
    ensures DepositBooks(TallyStep(c, key, now, active, env).value, g0)
  {
    assert HasStatus(c.gov, key.id, VotingPeriod);
    var p, requeued := TallyEffect(c, key, now, active, env);
    TallyDepositEffect(c, key, now, active, env);
    TallyPayment(c, key, now, active, env);
    var kind := if c.gov.proposals[key.id].decodable && env.tally(key.id).burnDeposits then Burn else Refund;
    var c' := TallyStep(c, key, now, active, env).value;
    hide TallyStep, DepositBooks;
    assert forall i: nat :: i != key.id ==> (Open(c'.gov, i) <==> Open(c.gov, i));
    if p.status == VotingPeriod {
      QuietBooks(c, c', g0);
    } else {
      SettleBooks(c, c', g0, key.id, kind);
    }
  }

  /** A tallied proposal's deposit is burned only if the tally says so; one
      that does not decode is refunded; one to be voted on again keeps it. */
  lemma TallyPayment(c: Chain, key: Key, now: int, active: bool, env: Env)
    requires HasStatus(c.gov, key.id, VotingPeriod)
    ensures var c' := TallyStep(c, key, now, active, env).value;
      var burned := c.gov.proposals[key.id].decodable && env.tally(key.id).burnDeposits;
      && c'.trace.deposited == c.trace.deposited
      && c'.trace.settled == c.trace.settled
           + if HasStatus(c'.gov, key.id, VotingPeriod) then []
             else [Payment(key.id, Held(c.gov, key.id), if burned then Burn else Refund)]
  {
  }

  lemma MatureDeposit(c: Chain, key: Key, now: int, env: Env, g0: Gov)
    requires GovInv(c.gov) && !Open(c.gov, key.id) && DepositBooks(c, g0)
    ensures DepositBooks(MatureStep(c, key, now, env), g0)
  {
    MatureEffect(c, key, now, env);
    var c' := MatureStep(c, key, now, env);
    MatureGovKeeps(c.gov, c'.gov, key.id);
    hide MatureStep, DepositBooks;
    assert forall i: nat :: Open(c'.gov, i) <==> Open(c.gov, i);
    QuietBooks(c, c', g0);
  }

  // ----- expedited proposals

  /** A proposal is converted to a regular one at most once, and stays one for
      as long as it is open. */
  ghost predicate ConversionBooks(c: Chain) {
    forall id: nat :: c.trace.converted[id] > 0 ==>
      c.trace.converted[id] == 1 && id < c.gov.nextId
      && (Open(c.gov, id) ==> !c.gov.proposals[id].expedited)
  }

  lemma TallyConversion(c: Chain, key: Key, now: int, active: bool, env: Env)
    requires GovInv(c.gov) && key in c.gov.active && ConversionBooks(c)
    ensures TallyStep(c, key, now, active, env).Some?
    ensures ConversionBooks(TallyStep(c, key, now, active, env).value)
  {
    assert HasStatus(c.gov, key.id, VotingPeriod);
    TallyConversionCount(c, key, now, active, env);
    var p, requeued := TallyEffect(c, key, now, active, env);
    hide TallyStep;
  }

  lemma TallyConversionCount(c: Chain, key: Key, now: int, active: bool, env: Env)
    requires HasStatus(c.gov, key.id, VotingPeriod)
    ensures var c' := TallyStep(c, key, now, active, env).value;
      && key.id in c'.gov.proposals
      && (if c.gov.proposals[key.id].expedited && HasStatus(c'.gov, key.id, VotingPeriod)
          then c'.trace.converted == c.trace.converted + multiset{key.id}
               && !c'.gov.proposals[key.id].expedited
          else c'.trace.converted == c.trace.converted
               && (c'.gov.proposals[key.id].expedited ==> c.gov.proposals[key.id].expedited))
  {
  }

  lemma MatureConversion(c: Chain, key: Key, now: int, env: Env)
    requires !Open(c.gov, key.id) && ConversionBooks(c)
    ensures ConversionBooks(MatureStep(c, key, now, env))
  {
    var c' := MatureStep(c, key, now, env);
    MatureEffect(c, key, now, env);
    hide MatureStep;
    forall i | i in c'.gov.proposals && i != key.id
      ensures i in c.gov.proposals && c'.gov.proposals[i] == c.gov.proposals[i]
    {
      assert i in c'.gov.proposals - {key.id};
    }
  }
}
