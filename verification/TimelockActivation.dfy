/** The activation gate: before it the EndBlocker refines stock x/gov, and it
    opens at one height and never closes. */
module TimelockActivation {
  import opened Options
  import opened OrderedKeys
  import opened TimelockChain
  import opened TimelockInvariant
  import opened TimelockBlock
  import opened TimelockRun

  // ----- the reference: x/gov without a timelock

  /** What becomes of a proposal at the end of its voting period. */
  datatype Ending = Ending(app: App, record: Proposal, keepsDeposit: bool)

  function StockEnding(g: Gov, id: nat, env: Env): Ending
    requires id in g.proposals
  {
    var p := g.proposals[id];
    if env.tally(id).passes then
      match RunProposal(env, g.app, p)
      case Some(app) => Ending(app, p.(status := Passed), false)
      case None => Ending(g.app, p.(status := Failed), false)
    else if p.expedited then Ending(g.app, p.(expedited := false), true)
    else Ending(g.app, p.(status := Rejected), false)
  }

  function StockTally(g: Gov, key: Key, env: Env): Option<Gov> {
    var id := key.id;
    if id !in g.proposals then None
    else if !g.proposals[id].decodable then
      Some(g.(proposals := g.proposals[id := FAILED_RECORD],
              active := g.active - {key}, deposits := g.deposits - {id}))
    else
      var e := StockEnding(g, id, env);
      var again := Key(g.proposals[id].votingStart + env.votingPeriod(id), id);
      Some(g.(proposals := g.proposals[id := e.record],
              active := if e.keepsDeposit then g.active - {key} + {again} else g.active - {key},
              deposits := if e.keepsDeposit then g.deposits else g.deposits - {id},
              app := Committed(e.app, env.hookEnded(id, e.app))))
  }

  function StockDrop(g: Gov, key: Key, env: Env): Option<Gov> {
    var id := key.id;
    if id !in g.proposals then None
    else
      Some(g.(proposals := g.proposals - {id},
              inactive := WithoutId(if g.proposals[id].decodable then g.inactive else g.inactive - {key}, id),
              active := WithoutId(g.active, id), deposits := g.deposits - {id},
              app := if g.proposals[id].decodable then Committed(g.app, env.hookDropped(id, g.app)) else g.app))
  }

  ghost function StockDropLoop(g: Gov, keys: seq<Key>, env: Env): Option<Gov> {
    if keys == [] then Some(g)
    else
      match StockDropLoop(g, keys[..|keys| - 1], env)
      case None => None
      case Some(g') => StockDrop(g', keys[|keys| - 1], env)
  }

  ghost function StockTallyLoop(g: Gov, keys: seq<Key>, env: Env): Option<Gov> {
    if keys == [] then Some(g)
    else
      match StockTallyLoop(g, keys[..|keys| - 1], env)
      case None => None
      case Some(g') => StockTally(g', keys[|keys| - 1], env)
  }

  ghost function StockEndBlock(g: Gov, now: int, env: Env): Option<Gov> {
    match StockDropLoop(g, Listing(UpTo(g.inactive, now)), env)
    case None => None
    case Some(g') => StockTallyLoop(g', Listing(UpTo(g'.active, now)), env)
  }

  /** Transactions seen from x/gov alone. */
  function StockTxs(g: Gov, txs: seq<Tx>): Gov {
    ApplyTxs(Chain(g, Lock({}, None, None), EMPTY_TRACE), txs).gov
  }

  ghost function StockRun(g: Gov, blocks: seq<Block>): Option<Gov> {
    if blocks == [] then Some(g)
    else
      var b := blocks[|blocks| - 1];
      match StockRun(g, blocks[..|blocks| - 1])
      case None => None
      case Some(g') => StockEndBlock(StockTxs(g', b.txs), b.time, b.env)
  }

  // ----- the refinement

  /** The timelock state is as it was and x/gov is where the reference is;
      both or neither stop. */
  ghost predicate Refines(c: Option<Chain>, l: Lock, g: Option<Gov>) {
    && (c.Some? <==> g.Some?)
    && (c.Some? ==> c.value.gov == g.value && c.value.lock == l)
  }

  lemma DropRefines(c: Chain, key: Key, env: Env)
    ensures Refines(InactiveStep(c, key, env), c.lock, StockDrop(c.gov, key, env))
  {
    if key.id in c.gov.proposals && !c.gov.proposals[key.id].decodable {
      assert c.gov.proposals[key.id := FAILED_RECORD] - {key.id} == c.gov.proposals - {key.id};
    }
  }

  lemma TallyRefines(c: Chain, key: Key, now: int, env: Env)
    ensures Refines(TallyStep(c, key, now, false, env), c.lock, StockTally(c.gov, key, env))
  {
  }

  lemma {:induction false} DropLoopRefines(c: Chain, keys: seq<Key>, env: Env)
    ensures Refines(InactiveLoop(c, keys, env), c.lock, StockDropLoop(c.gov, keys, env))
  {
    hide InactiveStep, StockDrop;
    if keys != [] {
      DropLoopRefines(c, keys[..|keys| - 1], env);
      var before := InactiveLoop(c, keys[..|keys| - 1], env);
      if before.Some? {
        DropRefines(before.value, keys[|keys| - 1], env);
      }
    }
  }

  lemma {:induction false} TallyLoopRefines(c: Chain, keys: seq<Key>, now: int, env: Env)
    ensures Refines(TallyLoop(c, keys, now, false, env), c.lock, StockTallyLoop(c.gov, keys, env))
  {
    hide TallyStep, StockTally;
    if keys != [] {
      TallyLoopRefines(c, keys[..|keys| - 1], now, env);
      var before := TallyLoop(c, keys[..|keys| - 1], now, false, env);
      if before.Some? {
        TallyRefines(before.value, keys[|keys| - 1], now, env);
      }
    }
  }

  /** An EndBlock below the activation height is a stock EndBlock. */
  lemma EndBlockRefines(c: Chain, height: int, now: int, env: Env)
    requires !Active(c.lock, height)
    ensures Refines(EndBlock(c, height, now, env), c.lock, StockEndBlock(c.gov, now, env))
  {
    hide InactiveLoop, TallyLoop, StockDropLoop, StockTallyLoop;
    var drops := Listing(UpTo(c.gov.inactive, now));
    DropLoopRefines(c, drops, env);
    var c1 := InactiveLoop(c, drops, env);
    if c1.Some? {
      TallyLoopRefines(c1.value, Listing(UpTo(c1.value.gov.active, now)), now, env);
    }
  }

  /** At or above the activation height a tally that does not pass is still a
      stock tally; one that passes closes the vote and settles the deposit as
      stock x/gov does, but runs no message and fires no hook. */
  lemma ActiveTallyDefers(c: Chain, key: Key, now: int, env: Env)
    requires key.id in c.gov.proposals
    ensures
      var r := TallyStep(c, key, now, true, env);
      if !WillPass(c.gov, key.id, env) then Refines(r, c.lock, StockTally(c.gov, key, env))
      else
        && r.Some?
        && r.value.trace.hooks == c.trace.hooks && r.value.trace.spot == c.trace.spot
        && r.value.gov == StockTally(c.gov, key, env).value.(
             app := c.gov.app,
             proposals := c.gov.proposals[key.id := c.gov.proposals[key.id].(status := Passed)])
  {
  }

  lemma NotPassing(c: Chain, key: Key, now: int, env: Env)
    requires !env.tally(key.id).passes
    ensures TallyStep(c, key, now, true, env) == TallyStep(c, key, now, false, env)
  {
  }

  lemma {:induction false} NonePassing(c: Chain, keys: seq<Key>, now: int, env: Env)
    requires forall k :: k in keys ==> !env.tally(k.id).passes
    ensures TallyLoop(c, keys, now, true, env) == TallyLoop(c, keys, now, false, env)
  {
    hide TallyStep;
    if keys != [] {
      var n := |keys| - 1;
      NonePassing(c, keys[..n], now, env);
      var before := TallyLoop(c, keys[..n], now, true, env);
      if before.Some? {
        NotPassing(before.value, keys[n], now, env);
      }
    }
  }

  /** An EndBlock in which no vote passes and no entry is due is a stock
      EndBlock at every height: the timelock touches nothing else. */
  lemma IdleBlockIsStock(c: Chain, height: int, now: int, env: Env)
    requires GovInv(c.gov)
    requires forall k :: k in c.gov.active && k.time <= now ==> !env.tally(k.id).passes
    requires forall k :: k in c.lock.schedule ==> k.time > now
    ensures Refines(EndBlock(c, height, now, env), c.lock, StockEndBlock(c.gov, now, env))
  {
    if Active(c.lock, height) {
      hide InactiveLoop, TallyLoop, StockDropLoop, StockTallyLoop, GovInv;
      InactivatedEffect(c, now, env);
      DropLoopRefines(c, Listing(UpTo(c.gov.inactive, now)), env);
      var c1 := Inactivated(c, now, env).value;
      var keys := Listing(UpTo(c1.gov.active, now));
      NonePassing(c1, keys, now, env);
      TallyLoopRefines(c1, keys, now, env);
      assert Listing(UpTo(c.lock.schedule, now)) == [];
    } else {
      EndBlockRefines(c, height, now, env);
    }
  }

  lemma TxSeenByGov(c: Chain, d: Chain, tx: Tx)
    requires c.gov == d.gov
    ensures ApplyTx(c, tx).gov == ApplyTx(d, tx).gov && ApplyTx(c, tx).lock == c.lock
  {
  }

  lemma {:induction false} TxsSeenByGov(c: Chain, d: Chain, txs: seq<Tx>)
    requires c.gov == d.gov
    ensures ApplyTxs(c, txs).gov == ApplyTxs(d, txs).gov
    ensures ApplyTxs(c, txs).lock == c.lock
  {
    hide ApplyTx;
    if txs != [] {
      var n := |txs| - 1;
      TxsSeenByGov(c, d, txs[..n]);
      TxSeenByGov(ApplyTxs(c, txs[..n]), ApplyTxs(d, txs[..n]), txs[n]);
    }
  }

  ghost predicate UpgradedBy(blocks: seq<Block>, i: int) {
    exists j :: 0 <= j <= i && j < |blocks| && blocks[j].upgrade
  }

  /** Any number of blocks below the activation height are a stock run that
      leaves the schedule alone. */
  lemma {:induction false} RunBeforeActivation(c: Chain, height: int, blocks: seq<Block>)
    requires !UpgradedBy(blocks, |blocks|)
    requires c.lock.activation.Some? ==> height + |blocks| <= c.lock.activation.value
    ensures Refines(Run(c, height, blocks), c.lock, StockRun(c.gov, blocks))
  {
    hide EndBlock, StockEndBlock, ApplyTxs;
    if blocks != [] {
      var n := |blocks| - 1;
      assert !blocks[n].upgrade;
      forall j | 0 <= j < n ensures !blocks[..n][j].upgrade {
        assert blocks[..n][j] == blocks[j];
      }
      RunBeforeActivation(c, height, blocks[..n]);
      var before := Run(c, height, blocks[..n]);
      if before.Some? {
        var b := before.value;
        TxsSeenByGov(b, Chain(b.gov, Lock({}, None, None), EMPTY_TRACE), blocks[n].txs);
        EndBlockRefines(ApplyTxs(b, blocks[n].txs), height + n, blocks[n].time, blocks[n].env);
      }
    }
  }

  // ----- the switch

  lemma {:induction false} TallyLoopActivation(c: Chain, keys: seq<Key>, now: int, active: bool, env: Env)
    ensures var r := TallyLoop(c, keys, now, active, env);
      r.Some? ==> r.value.lock.activation == c.lock.activation
  {
    if keys != [] {
      TallyLoopActivation(c, keys[..|keys| - 1], now, active, env);
    }
  }

  lemma {:induction false} MatureLoopActivation(c: Chain, keys: seq<Key>, now: int, env: Env)
    ensures MatureLoop(c, keys, now, env).lock.activation == c.lock.activation
  {
    if keys != [] {
      MatureLoopActivation(c, keys[..|keys| - 1], now, env);
    }
  }

  lemma EndBlockActivation(c: Chain, height: int, now: int, env: Env)
    ensures var r := EndBlock(c, height, now, env);
      r.Some? ==> r.value.lock.activation == c.lock.activation
  {
    hide InactiveLoop, TallyLoop, MatureLoop;
    DropLoopRefines(c, Listing(UpTo(c.gov.inactive, now)), env);
    var c1 := Inactivated(c, now, env);
    if c1.Some? {
      var active := Active(c.lock, height);
      TallyLoopActivation(c1.value, Listing(UpTo(c1.value.gov.active, now)), now, active, env);
      var c2 := AfterTally(c1.value, now, active, env);
      if c2.Some? {
        MatureLoopActivation(c2.value, Listing(UpTo(c2.value.lock.schedule, now)), now, env);
      }
    }
  }

  /** Whether the timelock governs block `i` of a run. */
  ghost predicate ActiveIn(c: Chain, height: int, blocks: seq<Block>, i: nat)
    requires i < |blocks| && Run(c, height, blocks[..i]).Some?
  {
    Active(Begun(Run(c, height, blocks[..i]).value, height + i, blocks[i]).lock, height + i)
  }

  lemma {:induction false} ActivationRecorded(c: Chain, height: int, blocks: seq<Block>)
    requires Run(c, height, blocks).Some?
    ensures var a := Run(c, height, blocks).value.lock.activation;
      if UpgradedBy(blocks, |blocks|) then a.Some? && a.value < height + |blocks|
      else a == c.lock.activation
  {
    hide EndBlock, ApplyTxs;
    if blocks != [] {
      var n := |blocks| - 1;
      var b := blocks[n];
      ActivationRecorded(c, height, blocks[..n]);
      var before := Begun(Run(c, height, blocks[..n]).value, height + n, b);
      TxsSeenByGov(before, before, b.txs);
      EndBlockActivation(ApplyTxs(before, b.txs), height + n, b.time, b.env);
      assert UpgradedBy(blocks, |blocks|) <==> b.upgrade || UpgradedBy(blocks[..n], n) by {
        if UpgradedBy(blocks, |blocks|) && !b.upgrade {
          var j :| 0 <= j < |blocks| && blocks[j].upgrade;
          assert blocks[..n][j].upgrade;
        }
        if UpgradedBy(blocks[..n], n) {
          var j :| 0 <= j < n && blocks[..n][j].upgrade;
          assert blocks[j].upgrade;
        }
      }
    }
  }

  /** The timelock governs a block exactly if an upgrade ran at or before it, or
      the height recorded at genesis has been reached; hence never stops doing so. */
  lemma ActivationSwitch(c: Chain, height: int, blocks: seq<Block>, i: nat)
    requires i < |blocks| && Run(c, height, blocks[..i]).Some?
    ensures ActiveIn(c, height, blocks, i)
      <==> UpgradedBy(blocks, i) || Active(c.lock, height + i)
  {
    hide Run;
    ActivationRecorded(c, height, blocks[..i]);
    if UpgradedBy(blocks[..i], i) {
      var j :| 0 <= j < i && blocks[..i][j].upgrade;
      assert blocks[j].upgrade;
    }
    if UpgradedBy(blocks, i) && !blocks[i].upgrade {
      var j :| 0 <= j <= i && blocks[j].upgrade;
      assert blocks[..i][j].upgrade;
    }
  }

  lemma ActivationNeverReverts(c: Chain, height: int, blocks: seq<Block>, i: nat, j: nat)
    requires i <= j < |blocks|
    requires Run(c, height, blocks[..i]).Some? && Run(c, height, blocks[..j]).Some?
    ensures ActiveIn(c, height, blocks, i) ==> ActiveIn(c, height, blocks, j)
  {
    hide Run;
    ActivationSwitch(c, height, blocks, i);
    ActivationSwitch(c, height, blocks, j);
  }

  // ----- nothing runs on the spot once the timelock governs

  lemma {:induction false} TallyLoopDefers(c: Chain, keys: seq<Key>, now: int, env: Env)
    ensures var r := TallyLoop(c, keys, now, true, env);
      r.Some? ==> r.value.trace.spot == c.trace.spot
  {
    if keys != [] {
      TallyLoopDefers(c, keys[..|keys| - 1], now, env);
    }
  }

  lemma {:induction false} MatureLoopSpot(c: Chain, keys: seq<Key>, now: int, env: Env)
    ensures MatureLoop(c, keys, now, env).trace.spot == c.trace.spot
  {
    if keys != [] {
      MatureLoopSpot(c, keys[..|keys| - 1], now, env);
    }
  }

  lemma {:induction false} InactiveLoopSpot(c: Chain, keys: seq<Key>, env: Env)
    ensures var r := InactiveLoop(c, keys, env);
      r.Some? ==> r.value.trace.spot == c.trace.spot && r.value.lock == c.lock
  {
    if keys != [] {
      InactiveLoopSpot(c, keys[..|keys| - 1], env);
    }
  }

  lemma {:induction false} TxsSpot(c: Chain, txs: seq<Tx>)
    ensures ApplyTxs(c, txs).trace.spot == c.trace.spot
  {
    if txs != [] {
      TxsSpot(c, txs[..|txs| - 1]);
    }
  }

  lemma EndBlockDefers(c: Chain, height: int, now: int, env: Env)
    requires Active(c.lock, height)
    ensures var r := EndBlock(c, height, now, env);
      r.Some? ==> r.value.trace.spot == c.trace.spot
  {
    hide InactiveLoop, TallyLoop, MatureLoop;
    InactiveLoopSpot(c, Listing(UpTo(c.gov.inactive, now)), env);
    var c1 := Inactivated(c, now, env);
    if c1.Some? {
      TallyLoopDefers(c1.value, Listing(UpTo(c1.value.gov.active, now)), now, env);
      var c2 := AfterTally(c1.value, now, true, env);
      if c2.Some? {
        MatureLoopSpot(c2.value, Listing(UpTo(c2.value.lock.schedule, now)), now, env);
      }
    }
  }

  /** From the block on that the timelock first governs, be it the upgrade's own
      in the middle of a run, nothing runs in a tally block. */
  lemma {:induction false} NothingOnTheSpot(c: Chain, height: int, blocks: seq<Block>, i: nat, j: nat)
    requires i < |blocks| && i <= j <= |blocks|
    requires UpgradedBy(blocks, i) || Active(c.lock, height + i)
    requires Run(c, height, blocks[..j]).Some?
    ensures Run(c, height, blocks[..i]).Some?
    ensures Run(c, height, blocks[..j]).value.trace.spot == Run(c, height, blocks[..i]).value.trace.spot
    decreases j
  {
    hide RunBlock, UpgradedBy, Active;
    if j > i {
      var n := j - 1;
      assert blocks[..j][n] == blocks[n];
      assert blocks[..j][..n] == blocks[..n];
      NothingOnTheSpot(c, height, blocks, i, n);
      BlockDefers(c, height, blocks, i, n);
    }
  }

  lemma BlockDefers(c: Chain, height: int, blocks: seq<Block>, i: nat, n: nat)
    requires i <= n < |blocks| && (UpgradedBy(blocks, i) || Active(c.lock, height + i))
    requires Run(c, height, blocks[..n]).Some?
    ensures var b := Run(c, height, blocks[..n]).value;
      var r := RunBlock(b, height + n, blocks[n]);
      r.Some? ==> r.value.trace.spot == b.trace.spot
  {
    hide EndBlock, ApplyTxs, Run;
    var b := blocks[n];
    ActivationSwitch(c, height, blocks, n);
    var before := Begun(Run(c, height, blocks[..n]).value, height + n, b);
    TxsSeenByGov(before, before, b.txs);
    TxsSpot(before, b.txs);
    EndBlockDefers(ApplyTxs(before, b.txs), height + n, b.time, b.env);
  }
}
