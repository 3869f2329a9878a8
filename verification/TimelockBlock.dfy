/** Theorems about one EndBlock: it never stops the chain, the exact schedule
    it leaves behind, and the atomicity and isolation of the matured batch. */
module TimelockBlock {
  import opened Options
  import opened OrderedKeys
  import opened TimelockChain
  import opened TimelockInvariant

  ghost predicate SameRecord(g: Gov, g': Gov, id: nat) {
    && (id in g.proposals <==> id in g'.proposals)
    && (id in g.proposals ==> g.proposals[id] == g'.proposals[id])
  }

  ghost predicate Owned(keys: seq<Key>, id: nat) {
    exists k :: k in keys && k.id == id
  }

  lemma OwnedStep(keys: seq<Key>)
    requires keys != []
    ensures var n := |keys| - 1;
      forall id :: Owned(keys, id) <==> Owned(keys[..n], id) || id == keys[n].id
  {
    var n := |keys| - 1;
    assert keys == keys[..n] + [keys[n]];
    forall id ensures Owned(keys, id) <==> Owned(keys[..n], id) || id == keys[n].id {
      if Owned(keys[..n], id) {
        var k :| k in keys[..n] && k.id == id;
        assert k in keys;
      }
      if id == keys[n].id {
        assert keys[n] in keys;
      }
    }
  }

  /** Records and voting keys of proposals owning none of `keys` are untouched. */
  ghost predicate Frame(g: Gov, g': Gov, keys: seq<Key>) {
    && (forall id: nat :: !Owned(keys, id) ==> SameRecord(g, g', id))
    && (forall k: Key :: !Owned(keys, k.id) ==> (k in g'.active <==> k in g.active))
  }

  ghost predicate DistinctKeyIds(keys: seq<Key>) {
    forall i, j :: 0 <= i < j < |keys| ==> keys[i].id != keys[j].id
  }

  lemma DueIdsDistinct(keys: set<Key>, now: int)
    requires OneKeyPerId(keys)
    ensures DistinctKeyIds(Listing(UpTo(keys, now)))
    ensures forall k :: k in Listing(UpTo(keys, now)) ==> k in keys && k.time <= now
  {
    var l := Listing(UpTo(keys, now));
    forall i, j | 0 <= i < j < |l| ensures l[i].id != l[j].id {
      assert l[i] in l && l[j] in l && Less(l[i], l[j]);
    }
  }

  lemma LastIsNew(keys: seq<Key>)
    requires DistinctKeyIds(keys) && keys != []
    ensures var n := |keys| - 1;
      DistinctKeyIds(keys[..n]) && !Owned(keys[..n], keys[n].id) && keys[n] !in keys[..n] && keys[n] in keys
  {
  }

  // ----- dropping under-deposited proposals

  lemma {:induction false} InactiveLoopEffect(c: Chain, keys: seq<Key>, env: Env)
    requires GovInv(c.gov) && DistinctKeyIds(keys)
    requires forall k :: k in keys ==> k in c.gov.inactive
    ensures InactiveLoop(c, keys, env).Some?
    ensures var c' := InactiveLoop(c, keys, env).value;
      && GovInv(c'.gov) && c'.lock == c.lock && c'.trace == c.trace.(settled := c'.trace.settled)
      && c'.gov.active == c.gov.active && c'.gov.inactive == (set k | k in c.gov.inactive && k !in keys)
      && Frame(c.gov, c'.gov, keys)
  {
    hide InactiveStep, GovInv;
    if keys == [] {
      assert c.gov.inactive == set k | k in c.gov.inactive && k !in keys;
    } else {
      var n := |keys| - 1;
      LastIsNew(keys);
      InactiveLoopEffect(c, keys[..n], env);
      var b := InactiveLoop(c, keys[..n], env).value;
      InactiveKeepsGov(b, keys[n], env);
      InactiveFrameStep(c.gov, b.gov, InactiveLoop(c, keys, env).value.gov, keys);
    }
  }

  lemma InactiveFrameStep(g: Gov, b: Gov, g': Gov, keys: seq<Key>)
    requires keys != [] && Frame(g, b, keys[..|keys| - 1])
    requires b.inactive == set k | k in g.inactive && k !in keys[..|keys| - 1]
    requires var k := keys[|keys| - 1];
      g'.proposals == b.proposals - {k.id} && g'.active == b.active && g'.inactive == b.inactive - {k}
    ensures Frame(g, g', keys) && g'.inactive == set k | k in g.inactive && k !in keys
  {
    assert keys == keys[..|keys| - 1] + [keys[|keys| - 1]];
    OwnedStep(keys);
  }

  // ----- tallying ended voting periods

  ghost function NewEntries(g: Gov, keys: seq<Key>, now: int, delay: int, env: Env): set<Key> {
    set k | k in keys && WillPass(g, k.id, env) :: Key(now + delay, k.id)
  }

  lemma NewEntriesStep(g: Gov, keys: seq<Key>, now: int, delay: int, env: Env)
    requires keys != []
    ensures var n := |keys| - 1;
      NewEntries(g, keys, now, delay, env) == NewEntries(g, keys[..n], now, delay, env)
        + if WillPass(g, keys[n].id, env) then {Key(now + delay, keys[n].id)} else {}
  {
    assert keys == keys[..|keys| - 1] + [keys[|keys| - 1]];
  }

  ghost function LockAfter(c: Chain, keys: seq<Key>, now: int, active: bool, env: Env): Lock {
    if active
    then c.lock.(schedule := c.lock.schedule + NewEntries(c.gov, keys, now, EffectiveDelay(c.lock), env))
    else c.lock
  }

  /** The queues and the schedule after the tally loop. */
  lemma {:induction false} TallyLoopEffect(c: Chain, keys: seq<Key>, now: int, active: bool, env: Env)
    requires GovInv(c.gov) && DistinctKeyIds(keys)
    requires forall k :: k in keys ==> k in c.gov.active
    ensures TallyLoop(c, keys, now, active, env).Some?
    ensures var c' := TallyLoop(c, keys, now, active, env).value;
      && GovInv(c'.gov) && Frame(c.gov, c'.gov, keys)
      && c'.trace.matured == c.trace.matured && c'.lock == LockAfter(c, keys, now, active, env)
  {
    hide TallyStep, GovInv, Frame, SameRecord, WillPass, NewEntries;
    if keys == [] {
      NothingNew(c, now, env);
    } else {
      var n := |keys| - 1;
      LastIsNew(keys);
      TallyLoopEffect(c, keys[..n], now, active, env);
      var b := TallyLoop(c, keys[..n], now, active, env).value;
      UntouchedKey(c.gov, b.gov, keys, env);
      TallyKeepsGov(b, keys[n], now, active, env);
      var p, requeued := TallyEffect(b, keys[n], now, active, env);
      TallyLockEffect(b, keys[n], now, active, env);
      NewEntriesStep(c.gov, keys, now, EffectiveDelay(c.lock), env);
      TallyFrameStep(c.gov, b.gov, TallyLoop(c, keys, now, active, env).value.gov, keys, p, requeued);
    }
  }

  lemma NothingNew(c: Chain, now: int, env: Env)
    ensures NewEntries(c.gov, [], now, EffectiveDelay(c.lock), env) == {}
    ensures Frame(c.gov, c.gov, [])
  {
  }

  /** The key about to be processed, and its record, are as before the loop. */
  lemma UntouchedKey(g: Gov, b: Gov, keys: seq<Key>, env: Env)
    requires DistinctKeyIds(keys) && keys != [] && keys[|keys| - 1] in g.active
    requires Frame(g, b, keys[..|keys| - 1])
    ensures var k := keys[|keys| - 1]; k in b.active && (WillPass(b, k.id, env) <==> WillPass(g, k.id, env))
  {
    assert SameRecord(g, b, keys[|keys| - 1].id);
  }

  lemma TallyFrameStep(g: Gov, b: Gov, g': Gov, keys: seq<Key>, p: Proposal, requeued: set<Key>)
    requires keys != [] && Frame(g, b, keys[..|keys| - 1])
    requires var k := keys[|keys| - 1];
      && g'.proposals == b.proposals[k.id := p]
      && g'.active == b.active - {k} + requeued && forall q :: q in requeued ==> q.id == k.id
    ensures Frame(g, g', keys)
  {
    OwnedStep(keys);
  }

  // ----- running matured entries

  /** Whatever an entry's proposal looks like, its entry is consumed. */
  lemma {:induction false} MatureLoopSchedule(c: Chain, keys: seq<Key>, now: int, env: Env)
    ensures MatureLoop(c, keys, now, env).lock
      == c.lock.(schedule := set k | k in c.lock.schedule && k !in keys)
  {
    if keys == [] {
      assert (set k | k in c.lock.schedule && k !in keys) == c.lock.schedule;
    } else {
      var n := |keys| - 1;
      MatureLoopSchedule(c, keys[..n], now, env);
      assert keys == keys[..n] + [keys[n]];
    }
  }

  /** The key about to be run is the least of those still scheduled. */
  lemma LastIsLeast(c: Chain, keys: seq<Key>, now: int, env: Env)
    requires keys != [] && Ascending(keys)
    requires forall k :: k in keys ==> k in c.lock.schedule
    requires forall k, q :: k in keys && q in c.lock.schedule && q !in keys ==> Less(k, q)
    ensures var n := |keys| - 1;
      && keys[n] in keys
      && (forall a, q :: a in keys[..n] && q in c.lock.schedule && q !in keys[..n] ==> a in keys && Less(a, q))
      && (var b := MatureLoop(c, keys[..n], now, env);
          keys[n] in b.lock.schedule && forall q :: q in b.lock.schedule && q != keys[n] ==> Less(keys[n], q))
  {
    var n := |keys| - 1;
    assert keys == keys[..n] + [keys[n]];
    forall a, q | a in keys[..n] && q in c.lock.schedule && q !in keys[..n] ensures a in keys && Less(a, q) {
      if q in keys { assert q == keys[n]; }
    }
    MatureLoopSchedule(c, keys[..n], now, env);
    forall i | 0 <= i < n ensures keys[..n][i] != keys[n] { assert Less(keys[i], keys[n]); }
  }

  // ----- the whole EndBlock

  lemma InactivatedEffect(c: Chain, now: int, env: Env)
    requires GovInv(c.gov)
    ensures Inactivated(c, now, env).Some?
    ensures var c' := Inactivated(c, now, env).value;
      && GovInv(c'.gov) && c'.lock == c.lock && c'.gov.active == c.gov.active
      && c'.trace == c.trace.(settled := c'.trace.settled)
      && forall k :: k in c.gov.active ==> SameRecord(c.gov, c'.gov, k.id)
  {
    var keys := Listing(UpTo(c.gov.inactive, now));
    DueIdsDistinct(c.gov.inactive, now);
    InactiveLoopEffect(c, keys, env);
    forall k | k in c.gov.active ensures !Owned(keys, k.id) {
      assert HasStatus(c.gov, k.id, VotingPeriod);
      forall q | q in keys ensures q.id != k.id { assert HasStatus(c.gov, q.id, DepositPeriod); }
    }
  }

  /** The schedule an active block leaves behind, whatever its entries name:
      the entries not yet due and one entry per proposal that passed.  Only the
      queues of x/gov need be consistent. */
  lemma ScheduleTransition(c: Chain, height: int, now: int, env: Env)
    requires GovInv(c.gov) && Active(c.lock, height)
    ensures EndBlock(c, height, now, env).Some?
    ensures EndBlock(c, height, now, env).value.lock
      == c.lock.(schedule := (set k | k in c.lock.schedule && k.time > now)
           + (set k | k in c.gov.active && k.time <= now && WillPass(c.gov, k.id, env)
                :: Key(now + EffectiveDelay(c.lock), k.id)))
  {
    hide InactiveLoop, TallyLoop, MatureLoop, GovInv;
    InactivatedEffect(c, now, env);
    var c1 := Inactivated(c, now, env).value;
    var keys := Listing(UpTo(c1.gov.active, now));
    DueIdsDistinct(c1.gov.active, now);
    TallyLoopEffect(c1, keys, now, true, env);
    var c2 := AfterTally(c1, now, true, env).value;
    var due := Listing(UpTo(c2.lock.schedule, now));
    MatureLoopSchedule(c2, due, now, env);
    var added := NewEntries(c1.gov, keys, now, EffectiveDelay(c.lock), env);
    assert added == set k | k in c.gov.active && k.time <= now && WillPass(c.gov, k.id, env)
             :: Key(now + EffectiveDelay(c.lock), k.id) by {
      assert forall k :: k in keys <==> k in c.gov.active && k.time <= now;
      assert forall k :: k in keys ==> (WillPass(c1.gov, k.id, env) <==> WillPass(c.gov, k.id, env));
    }
    assert (set k | k in c2.lock.schedule && k !in due)
      == (set k | k in c.lock.schedule && k.time > now) + added;
  }
}
