/** The invariant that ties x/gov's queues, its proposal table, the schedule and
    the trace together, and its preservation by every step of the EndBlocker. */
module TimelockInvariant {
  import opened Options
  import opened OrderedKeys
  import opened TimelockChain

  ghost predicate OneKeyPerId(keys: set<Key>) {
    forall a, b :: a in keys && b in keys && a.id == b.id ==> a == b
  }

  ghost function Ids(keys: set<Key>): set<nat> {
    set k | k in keys :: k.id
  }

  ghost predicate HasStatus(g: Gov, id: nat, s: Status) {
    id in g.proposals && g.proposals[id].status == s
  }

  ghost predicate Closed(g: Gov, id: nat) {
    HasStatus(g, id, Passed) || HasStatus(g, id, Failed)
  }

  /** Awaiting deposits or votes. */
  ghost predicate Open(g: Gov, id: nat) {
    HasStatus(g, id, DepositPeriod) || HasStatus(g, id, VotingPeriod)
  }

  ghost predicate GovInv(g: Gov) {
    && g.nextId > 0
    && (forall id :: id in g.proposals ==> 0 < id < g.nextId)
    && OneKeyPerId(g.inactive) && OneKeyPerId(g.active)
    && (forall k :: k in g.inactive ==> HasStatus(g, k.id, DepositPeriod))
    && (forall k :: k in g.active ==> HasStatus(g, k.id, VotingPeriod))
    && (forall id :: id in g.deposits ==> Open(g, id))
  }

  /** A proposal x/gov is done with.  Its record may since have been overwritten
      or deleted by something outside this module. */
  ghost predicate Finished(g: Gov, id: nat) {
    0 < id < g.nextId && !Open(g, id)
  }

  ghost predicate LockInv(c: Chain) {
    && OneKeyPerId(c.lock.schedule)
    && (forall k :: k in c.lock.schedule ==> Finished(c.gov, k.id) && k.time != ZERO_TIME)
    && (c.lock.schedule != {} ==> c.lock.activation.Some?)
    && (c.lock.activation.Some? ==> c.lock.activation.value > 0)
    && (c.lock.delay.Some? ==> c.lock.delay.value > 0)
  }

  /** Ran proposals are finished, and no longer scheduled. */
  ghost predicate Retired(c: Chain, id: nat) {
    Finished(c.gov, id) && forall k :: k in c.lock.schedule ==> k.id != id
  }

  ghost predicate DistinctIds(log: seq<Ran>) {
    forall i, j :: 0 <= i < j < |log| ==> log[i].key.id != log[j].key.id
  }

  ghost predicate InKeyOrder(log: seq<Ran>) {
    forall i, j :: 0 <= i < j < |log| ==> Less(log[i].key, log[j].key)
  }

  /** Every run was for a proposal now retired, never early, at most once and in
      key order; nothing still scheduled precedes what ran. */
  ghost predicate TraceInv(c: Chain) {
    && (forall r :: r in c.trace.matured ==> r.key.time <= r.at && Retired(c, r.key.id))
    && (forall r :: r in c.trace.spot ==> Retired(c, r.key.id))
    && InKeyOrder(c.trace.matured) && DistinctIds(c.trace.matured + c.trace.spot)
    && (forall r, k :: r in c.trace.matured && k in c.lock.schedule ==> Less(r.key, k))
  }

  ghost predicate Inv(c: Chain) {
    GovInv(c.gov) && LockInv(c) && TraceInv(c)
  }

  /** Every scheduled proposal is passed in x/gov: holds as long as nothing
      outside the two modules touches a finished proposal. */
  ghost predicate AllPassed(c: Chain) {
    forall k :: k in c.lock.schedule ==> HasStatus(c.gov, k.id, Passed)
  }

  ghost predicate AllDecodable(g: Gov) {
    forall id :: id in g.proposals ==> g.proposals[id].decodable
  }

  /** Everything that has already run was due by `now`. */
  ghost predicate RanBy(c: Chain, now: int) {
    forall r :: r in c.trace.matured ==> r.at <= now
  }

  // ----- what a single step changes

  /** Whether the tally of a voting proposal ends in a pass. */
  predicate WillPass(g: Gov, id: nat, env: Env) {
    id in g.proposals && g.proposals[id].decodable && env.tally(id).passes
  }

  lemma InactiveEffect(c: Chain, key: Key, env: Env)
    requires GovInv(c.gov) && key in c.gov.inactive
    ensures InactiveStep(c, key, env).Some?
    ensures var c' := InactiveStep(c, key, env).value;
      && c'.lock == c.lock
      && c'.trace == c.trace.(settled := c'.trace.settled)
      && c'.gov.nextId == c.gov.nextId
      && c'.gov.active == c.gov.active && c'.gov.inactive == c.gov.inactive - {key}
      && c'.gov.proposals == c.gov.proposals - {key.id}
      && c'.gov.deposits == c.gov.deposits - {key.id}
  {
    var c' := InactiveStep(c, key, env).value;
    assert HasStatus(c.gov, key.id, DepositPeriod);
    assert WithoutId(c.gov.active, key.id) == c.gov.active;
    assert WithoutId(c.gov.inactive, key.id) == c.gov.inactive - {key};
    assert WithoutId(c.gov.inactive - {key}, key.id) == c.gov.inactive - {key};
    assert c'.gov.proposals == c.gov.proposals - {key.id};
  }

  /** The record a tally leaves behind. */
  lemma TallyRecord(c: Chain, key: Key, now: int, active: bool, env: Env) returns (p: Proposal)
    requires HasStatus(c.gov, key.id, VotingPeriod)
    ensures TallyStep(c, key, now, active, env).Some?
    ensures var g' := TallyStep(c, key, now, active, env).value.gov;
      && g'.proposals == c.gov.proposals[key.id := p] && p.decodable
      && p.status in {VotingPeriod, Passed, Failed, Rejected}
  {
    p := TallyStep(c, key, now, active, env).value.gov.proposals[key.id];
  }

  /** The queue key a tally leaves behind: a converted proposal is voted on again. */
  lemma TallyQueue(c: Chain, key: Key, now: int, active: bool, env: Env)
    requires HasStatus(c.gov, key.id, VotingPeriod)
    ensures var g' := TallyStep(c, key, now, active, env).value.gov;
      var again := Key(c.gov.proposals[key.id].votingStart + env.votingPeriod(key.id), key.id);
      && g'.nextId == c.gov.nextId && g'.inactive == c.gov.inactive
      && g'.active == c.gov.active - {key} + if HasStatus(g', key.id, VotingPeriod) then {again} else {}
  {
  }

  lemma TallyEffect(c: Chain, key: Key, now: int, active: bool, env: Env)
      returns (p: Proposal, requeued: set<Key>)
    requires GovInv(c.gov) && key in c.gov.active
    ensures key.id in c.gov.proposals && TallyStep(c, key, now, active, env).Some?
    ensures var c' := TallyStep(c, key, now, active, env).value;
      && c'.gov.nextId == c.gov.nextId && c'.gov.inactive == c.gov.inactive
      && c'.gov.proposals == c.gov.proposals[key.id := p]
      && c'.gov.active == c.gov.active - {key} + requeued
      && OneKeyPerId(requeued) && (forall k :: k in requeued ==> k.id == key.id)
      && (p.status == VotingPeriod <==> requeued != {})
      && p.status in {VotingPeriod, Passed, Failed, Rejected}
  {
    hide TallyStep;
    assert HasStatus(c.gov, key.id, VotingPeriod);
    p := TallyRecord(c, key, now, active, env);
    TallyQueue(c, key, now, active, env);
    requeued := if p.status == VotingPeriod
                then {Key(c.gov.proposals[key.id].votingStart + env.votingPeriod(key.id), key.id)} else {};
  }

  /** A tally that does not requeue the proposal settles its deposit. */
  lemma TallyDepositEffect(c: Chain, key: Key, now: int, active: bool, env: Env)
    requires HasStatus(c.gov, key.id, VotingPeriod)
    ensures var g' := TallyStep(c, key, now, active, env).value.gov;
      g'.deposits == if HasStatus(g', key.id, VotingPeriod) then c.gov.deposits
                     else c.gov.deposits - {key.id}
  {
  }

  lemma TallyLockEffect(c: Chain, key: Key, now: int, active: bool, env: Env)
    requires key.id in c.gov.proposals
    ensures var c' := TallyStep(c, key, now, active, env).value;
      var entry := Key(now + EffectiveDelay(c.lock), key.id);
      && c'.trace.matured == c.trace.matured
      && (if active && WillPass(c.gov, key.id, env)
          then c'.lock == Schedule(c.lock, entry)
               && c'.trace.passes == c.trace.passes + [Pass(now, entry)]
               && HasStatus(c'.gov, key.id, Passed)
          else c'.lock == c.lock && c'.trace.passes == c.trace.passes)
      && (if !active && WillPass(c.gov, key.id, env)
          then c'.trace.spot == c.trace.spot + [Ran(now, Key(now, key.id))] && Closed(c'.gov, key.id)
          else c'.trace.spot == c.trace.spot)
  {
  }

  /** Whatever the entry names: a passed proposal, a missing or undecodable one,
      or one that is off StatusPassed. */
  lemma MatureEffect(c: Chain, key: Key, now: int, env: Env)
    ensures var c' := MatureStep(c, key, now, env);
      && c'.lock == c.lock.(schedule := c.lock.schedule - {key})
      && c'.gov.(app := c.gov.app, proposals := c.gov.proposals) == c.gov
      && c'.gov.proposals.Keys == c.gov.proposals.Keys
      && c'.gov.proposals - {key.id} == c.gov.proposals - {key.id}
      && (!Open(c.gov, key.id) ==> !Open(c'.gov, key.id))
      && c'.trace == c.trace.(matured := c'.trace.matured, hooks := c.trace.hooks + multiset{key.id})
      && c'.trace.matured == c.trace.matured + if Runnable(c.gov, key.id) then [Ran(now, key)] else []
  {
  }

  // ----- the invariant is kept by every step

  /** Every proposal but `id` keeps its status. */
  ghost predicate StatusFrame(g: Gov, g': Gov, id: nat) {
    forall i, st :: i != id ==> (HasStatus(g, i, st) <==> HasStatus(g', i, st))
  }

  lemma InactiveKeepsGov(c: Chain, key: Key, env: Env)
    requires GovInv(c.gov) && key in c.gov.inactive
    ensures InactiveStep(c, key, env).Some?
    ensures var g' := InactiveStep(c, key, env).value.gov;
      && GovInv(g') && StatusFrame(c.gov, g', key.id) && g'.nextId == c.gov.nextId
      && g'.active == c.gov.active && g'.inactive == c.gov.inactive - {key}
      && g'.proposals == c.gov.proposals - {key.id}
    ensures var c' := InactiveStep(c, key, env).value;
      c'.lock == c.lock && c'.trace == c.trace.(settled := c'.trace.settled)
  {
    InactiveEffect(c, key, env);
    assert HasStatus(c.gov, key.id, DepositPeriod);
  }

  lemma InactiveKeeps(c: Chain, key: Key, env: Env)
    requires Inv(c) && key in c.gov.inactive
    ensures InactiveStep(c, key, env).Some? && Inv(InactiveStep(c, key, env).value)
  {
    InactiveKeepsGov(c, key, env);
    assert HasStatus(c.gov, key.id, DepositPeriod);
    var c' := InactiveStep(c, key, env).value;
    assert forall r :: r in c.trace.matured ==> Retired(c, r.key.id);
    assert forall r :: r in c.trace.spot ==> Retired(c, r.key.id);
  }

  lemma TallyGovKeeps(g: Gov, g': Gov, key: Key, p: Proposal, requeued: set<Key>)
    requires GovInv(g) && key in g.active
    requires g'.nextId == g.nextId && g'.inactive == g.inactive
    requires g'.proposals == g.proposals[key.id := p] && g'.active == g.active - {key} + requeued
    requires OneKeyPerId(requeued) && forall k :: k in requeued ==> k.id == key.id
    requires p.status == VotingPeriod <==> requeued != {}
    requires g'.deposits == if p.status == VotingPeriod then g.deposits else g.deposits - {key.id}
    ensures GovInv(g') && StatusFrame(g, g', key.id)
  {
    assert HasStatus(g, key.id, VotingPeriod);
    assert StatusFrame(g, g', key.id);
  }

  lemma TallyKeepsGov(c: Chain, key: Key, now: int, active: bool, env: Env)
    requires GovInv(c.gov) && key in c.gov.active
    ensures TallyStep(c, key, now, active, env).Some?
    ensures var g' := TallyStep(c, key, now, active, env).value.gov;
      GovInv(g') && StatusFrame(c.gov, g', key.id) && g'.nextId == c.gov.nextId
  {
    assert HasStatus(c.gov, key.id, VotingPeriod);
    var p, requeued := TallyEffect(c, key, now, active, env);
    TallyDepositEffect(c, key, now, active, env);
    TallyGovKeeps(c.gov, TallyStep(c, key, now, active, env).value.gov, key, p, requeued);
  }

  ghost predicate RetiredFrame(c: Chain, c': Chain) {
    && (forall r :: r in c.trace.matured ==> Retired(c', r.key.id))
    && (forall r :: r in c.trace.spot ==> Retired(c', r.key.id))
  }

  lemma ScheduleKeeps(c: Chain, c': Chain, entry: Key, now: int)
    requires c'.gov.nextId == c.gov.nextId
    requires Inv(c) && HasStatus(c.gov, entry.id, VotingPeriod) && StatusFrame(c.gov, c'.gov, entry.id)
    requires HasStatus(c'.gov, entry.id, Passed) && c.lock.activation.Some?
    requires RanBy(c, now) && entry.time > now > 0
    requires c'.lock == Schedule(c.lock, entry)
    requires c'.trace.matured == c.trace.matured && c'.trace.spot == c.trace.spot
    ensures LockInv(c') && TraceInv(c')
  {
    assert forall r :: r in c.trace.matured ==> Retired(c, r.key.id) && r.key.id != entry.id;
    assert forall r :: r in c.trace.spot ==> Retired(c, r.key.id) && r.key.id != entry.id;
    assert RetiredFrame(c, c');
  }

  lemma SpotKeeps(c: Chain, c': Chain, id: nat, now: int)
    requires c'.gov.nextId == c.gov.nextId
    requires Inv(c) && HasStatus(c.gov, id, VotingPeriod) && StatusFrame(c.gov, c'.gov, id)
    requires c'.lock == c.lock && c'.trace.matured == c.trace.matured
    requires || c'.trace.spot == c.trace.spot
             || (Closed(c'.gov, id) && c'.trace.spot == c.trace.spot + [Ran(now, Key(now, id))])
    ensures LockInv(c') && TraceInv(c')
  {
    assert forall r :: r in c.trace.matured ==> Retired(c, r.key.id) && r.key.id != id;
    assert forall r :: r in c.trace.spot ==> Retired(c, r.key.id) && r.key.id != id;
    assert RetiredFrame(c, c');
    var log := c.trace.matured + c.trace.spot;
    assert forall i :: 0 <= i < |log| ==> log[i].key.id != id;
    assert c'.trace.spot != c.trace.spot ==>
      c'.trace.matured + c'.trace.spot == log + [Ran(now, Key(now, id))];
  }

  lemma TallyKeeps(c: Chain, key: Key, now: int, active: bool, env: Env)
    requires Inv(c) && key in c.gov.active && now > 0
    requires active ==> c.lock.activation.Some? && RanBy(c, now)
    ensures TallyStep(c, key, now, active, env).Some?
    ensures Inv(TallyStep(c, key, now, active, env).value)
  {
    assert HasStatus(c.gov, key.id, VotingPeriod);
    TallyKeepsGov(c, key, now, active, env);
    TallyLockEffect(c, key, now, active, env);
    var c' := TallyStep(c, key, now, active, env).value;
    if active && WillPass(c.gov, key.id, env) {
      ScheduleKeeps(c, c', Key(now + EffectiveDelay(c.lock), key.id), now);
    } else {
      SpotKeeps(c, c', key.id, now);
    }
  }

  lemma MatureLogKeeps(c: Chain, c': Chain, key: Key, now: int)
    requires Inv(c) && key in c.lock.schedule && key.time <= now && StatusFrame(c.gov, c'.gov, key.id)
    requires forall k :: k in c.lock.schedule && k != key ==> Less(key, k)
    requires c'.gov.nextId == c.gov.nextId && !Open(c'.gov, key.id)
    requires c'.lock == c.lock.(schedule := c.lock.schedule - {key}) && c'.trace.spot == c.trace.spot
    requires c'.trace.matured == c.trace.matured || c'.trace.matured == c.trace.matured + [Ran(now, key)]
    ensures LockInv(c') && TraceInv(c')
  {
    assert forall r :: r in c.trace.matured ==> Retired(c, r.key.id) && r.key.id != key.id;
    assert forall r :: r in c.trace.spot ==> Retired(c, r.key.id) && r.key.id != key.id;
    assert RetiredFrame(c, c');
    assert Retired(c', key.id);
    InsertDistinct(c.trace.matured, c.trace.spot, Ran(now, key));
  }

  lemma InsertDistinct(a: seq<Ran>, b: seq<Ran>, r: Ran)
    requires DistinctIds(a + b)
    requires forall x :: x in a || x in b ==> x.key.id != r.key.id
    ensures DistinctIds((a + [r]) + b)
  {
    var log := (a + [r]) + b;
    forall i, j | 0 <= i < j < |log| ensures log[i].key.id != log[j].key.id {
      var i' := if i <= |a| then i else i - 1;
      var j' := if j <= |a| then j else j - 1;
      assert i != |a| && j != |a| ==> log[i] == (a + b)[i'] && log[j] == (a + b)[j'];
    }
  }

  lemma MatureGovKeeps(g: Gov, g': Gov, id: nat)
    requires GovInv(g) && !Open(g, id) && !Open(g', id)
    requires g' == g.(app := g'.app, proposals := g'.proposals)
    requires g'.proposals.Keys == g.proposals.Keys && g'.proposals - {id} == g.proposals - {id}
    ensures GovInv(g') && StatusFrame(g, g', id)
  {
    forall i, st | i != id ensures HasStatus(g, i, st) <==> HasStatus(g', i, st) {
      assert i in g.proposals <==> i in g.proposals - {id};
      assert i in g'.proposals <==> i in g'.proposals - {id};
    }
    assert forall i :: i in g'.proposals <==> i in g'.proposals.Keys;
    assert forall k :: k in g.inactive || k in g.active ==> k.id != id;
  }

  lemma MatureKeeps(c: Chain, key: Key, now: int, env: Env)
    requires Inv(c) && key in c.lock.schedule && key.time <= now
    requires forall k :: k in c.lock.schedule && k != key ==> Less(key, k)
    ensures Inv(MatureStep(c, key, now, env))
  {
    var c' := MatureStep(c, key, now, env);
    MatureEffect(c, key, now, env);
    MatureGovKeeps(c.gov, c'.gov, key.id);
    MatureLogKeeps(c, c', key, now);
  }

  // ----- what holds unless something outside interferes

  /** What is known not to happen to the records of a run: that something
      outside the two modules touches a finished proposal, or that stored bytes
      stop decoding. */
  datatype Setting = Setting(undisturbed: bool, decodable: bool)

  ghost predicate Intact(c: Chain, s: Setting) {
    (s.undisturbed ==> AllPassed(c)) && (s.decodable ==> AllDecodable(c.gov))
  }

  lemma InactiveIntact(c: Chain, key: Key, env: Env, s: Setting)
    requires Inv(c) && key in c.gov.inactive && Intact(c, s)
    ensures InactiveStep(c, key, env).Some? && Intact(InactiveStep(c, key, env).value, s)
  {
    InactiveEffect(c, key, env);
    hide InactiveStep, TraceInv;
    assert HasStatus(c.gov, key.id, DepositPeriod);
  }

  lemma TallyIntact(c: Chain, key: Key, now: int, active: bool, env: Env, s: Setting)
    requires Inv(c) && key in c.gov.active && Intact(c, s)
    ensures TallyStep(c, key, now, active, env).Some?
    ensures Intact(TallyStep(c, key, now, active, env).value, s)
  {
    hide TallyStep, TraceInv;
    assert HasStatus(c.gov, key.id, VotingPeriod);
    var p := TallyRecord(c, key, now, active, env);
    TallyLockEffect(c, key, now, active, env);
  }

  lemma MatureIntact(c: Chain, key: Key, now: int, env: Env, s: Setting)
    requires OneKeyPerId(c.lock.schedule) && key in c.lock.schedule && Intact(c, s)
    ensures Intact(MatureStep(c, key, now, env), s)
  {
    MatureEffect(c, key, now, env);
    MatureDecodable(c, key, now, env);
    var c' := MatureStep(c, key, now, env);
    hide MatureStep;
    forall i | i != key.id && i in c.gov.proposals
      ensures i in c'.gov.proposals && c'.gov.proposals[i] == c.gov.proposals[i]
    {
      assert i in c.gov.proposals - {key.id};
    }
    forall i | i in c'.gov.proposals ensures i in c.gov.proposals {
      assert i in c'.gov.proposals.Keys;
    }
  }

  lemma MatureDecodable(c: Chain, key: Key, now: int, env: Env)
    ensures var g' := MatureStep(c, key, now, env).gov;
      key.id in g'.proposals ==> g'.proposals[key.id].decodable
  {
  }
}
