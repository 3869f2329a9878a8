/** Whole runs: blocks of x/gov transactions closed by an EndBlock, with the
    upgrade handler in front of the blocks that carry the upgrade. */
module TimelockRun {
  import opened Options
  import opened OrderedKeys
  import opened TimelockChain
  import opened TimelockInvariant
  import opened TimelockBlock
  import opened TimelockAccounts

  /** What happens to x/gov and the application between two EndBlocks.  A
      transaction that does not apply changes nothing.  SetDecodable is a change
      of the stored bytes or of the code that reads them; Interfere is something
      outside both modules that overwrites, deletes or restores the record of a
      proposal x/gov is done with, moving it off StatusPassed if it likes. */
  datatype Tx =
    | Submit(messages: Option<seq<nat>>, expedited: bool, depositEnd: int, amount: nat)
    | AddDeposit(id: nat, amount: nat)
    | Activate(id: nat, votingStart: int, votingEnd: int)
    | Cancel(id: nat)
    | SetDecodable(id: nat, decodable: bool)
    | Interfere(id: nat, record: Option<Proposal>)
    | SetApp(app: App)

  predicate CanDeposit(g: Gov, id: nat) {
    && id in g.proposals && g.proposals[id].decodable
    && g.proposals[id].status in {DepositPeriod, VotingPeriod}
  }

  predicate CanInterfere(g: Gov, id: nat, record: Option<Proposal>) {
    && 0 < id < g.nextId
    && (id in g.proposals ==> g.proposals[id].status !in {DepositPeriod, VotingPeriod})
    && (record.Some? ==> record.value.status !in {DepositPeriod, VotingPeriod})
  }

  function ApplyTx(c: Chain, tx: Tx): Chain {
    match tx
    case Submit(messages, expedited, depositEnd, amount) =>
      var id := c.gov.nextId;
      var p := Proposal(DepositPeriod, expedited, 0, true, messages);
      c.(gov := c.gov.(proposals := c.gov.proposals[id := p], nextId := id + 1,
                       inactive := c.gov.inactive + {Key(depositEnd, id)},
                       deposits := c.gov.deposits[id := amount]),
         trace := c.trace.(deposited := c.trace.deposited + [Payment(id, amount, PaidIn)]))
    case AddDeposit(id, amount) =>
      if CanDeposit(c.gov, id) then
        c.(gov := c.gov.(deposits := c.gov.deposits[id := Held(c.gov, id) + amount]),
           trace := c.trace.(deposited := c.trace.deposited + [Payment(id, amount, PaidIn)]))
      else c
    case Activate(id, votingStart, votingEnd) =>
      if CanDeposit(c.gov, id) && c.gov.proposals[id].status == DepositPeriod then
        var p := c.gov.proposals[id].(status := VotingPeriod, votingStart := votingStart);
        c.(gov := c.gov.(proposals := c.gov.proposals[id := p],
                         inactive := WithoutId(c.gov.inactive, id),
                         active := c.gov.active + {Key(votingEnd, id)}))
      else c
    case Cancel(id) =>
      if CanDeposit(c.gov, id) then Settle(DeleteProposal(c, id), id, Cancelled) else c
    case SetDecodable(id, decodable) =>
      if id in c.gov.proposals
      then SetProposal(c, id, c.gov.proposals[id].(decodable := decodable)) else c
    case Interfere(id, record) =>
      if CanInterfere(c.gov, id, record) then
        c.(gov := c.gov.(proposals := if record.Some? then c.gov.proposals[id := record.value]
                                      else c.gov.proposals - {id}))
      else c
    case SetApp(app) => c.(gov := c.gov.(app := app))
  }

  function ApplyTxs(c: Chain, txs: seq<Tx>): Chain {
    if txs == [] then c else ApplyTx(ApplyTxs(c, txs[..|txs| - 1]), txs[|txs| - 1])
  }

  datatype Block = Block(time: int, upgrade: bool, txs: seq<Tx>, env: Env)

  /** The upgrade handler records the height it runs at. */
  function Upgraded(c: Chain, height: int): Chain {
    c.(lock := c.lock.(activation := Some(height)))
  }

  function Begun(c: Chain, height: int, b: Block): Chain {
    if b.upgrade then Upgraded(c, height) else c
  }

  ghost function RunBlock(c: Chain, height: int, b: Block): Option<Chain> {
    EndBlock(ApplyTxs(Begun(c, height, b), b.txs), height, b.time, b.env)
  }

  /** The state after `blocks`, the first of which has height `height`. */
  ghost function Run(c: Chain, height: int, blocks: seq<Block>): Option<Chain> {
    if blocks == [] then Some(c)
    else
      var n := |blocks| - 1;
      match Run(c, height, blocks[..n])
      case None => None
      case Some(c') => RunBlock(c', height + n, blocks[n])
  }

  /** Whether a transaction respects what the setting rules out. */
  predicate Respects(tx: Tx, s: Setting) {
    && (s.undisturbed ==> !tx.Interfere?)
    && (s.decodable ==>
          && (tx.SetDecodable? ==> tx.decodable)
          && (tx.Interfere? && tx.record.Some? ==> tx.record.value.decodable))
  }

  ghost predicate AllRespect(blocks: seq<Block>, s: Setting) {
    forall b, tx :: b in blocks && tx in b.txs ==> Respects(tx, s)
  }

  /** Block times never decrease; `start` is no later than the first one. */
  ghost predicate Timely(start: int, blocks: seq<Block>) {
    && (forall i :: 0 <= i < |blocks| ==> start <= blocks[i].time)
    && (forall i, j :: 0 <= i < j < |blocks| ==> blocks[i].time <= blocks[j].time)
  }

  ghost function LastTime(start: int, blocks: seq<Block>): int {
    if blocks == [] then start else blocks[|blocks| - 1].time
  }

  /** The books of a run that began in `c0` at time `start`. */
  ghost predicate Books(c: Chain, c0: Chain, start: int, now: int) {
    && PassBooks(c, c0.lock.schedule, start, now)
    && (forall id :: HookDebt(c, id) == HookDebt(c0, id))
    && DepositBooks(c, c0.gov)
    && ConversionBooks(c)
    && c.lock.delay == c0.lock.delay
  }

  ghost predicate RunInv(c: Chain, c0: Chain, start: int, now: int, s: Setting) {
    Inv(c) && RanBy(c, now) && Books(c, c0, start, now) && start <= now && now > 0 && Intact(c, s)
  }

  // ----- transactions between blocks

  lemma SubmitKeeps(c: Chain, tx: Tx)
    requires Inv(c) && tx.Submit?
    ensures Inv(ApplyTx(c, tx))
  {
    var c' := ApplyTx(c, tx);
    assert c.gov.nextId !in c.gov.proposals;
    assert forall id, st :: HasStatus(c.gov, id, st) ==> HasStatus(c'.gov, id, st);
    assert forall id :: Retired(c, id) ==> Retired(c', id);
  }

  /** Activation and cancellation touch one open proposal. */
  lemma OpenTxKeeps(c: Chain, tx: Tx)
    requires Inv(c) && (tx.Activate? || tx.Cancel?)
    ensures Inv(ApplyTx(c, tx))
  {
    var c' := ApplyTx(c, tx);
    if c' != c {
      assert StatusFrame(c.gov, c'.gov, tx.id);
      assert Open(c.gov, tx.id);
      assert forall id :: Retired(c, id) ==> id != tx.id && Retired(c', id);
    }
  }

  /** Interference leaves finished proposals finished and touches no other. */
  lemma InterfereKeeps(c: Chain, tx: Tx)
    requires Inv(c) && tx.Interfere?
    ensures Inv(ApplyTx(c, tx))
  {
    var c' := ApplyTx(c, tx);
    if c' != c {
      assert StatusFrame(c.gov, c'.gov, tx.id);
      assert Finished(c.gov, tx.id) && Finished(c'.gov, tx.id);
      assert forall id :: Finished(c.gov, id) ==> Finished(c'.gov, id);
      assert forall id :: Retired(c, id) ==> Retired(c', id);
    }
  }

  lemma TxKeeps(c: Chain, tx: Tx)
    requires Inv(c)
    ensures Inv(ApplyTx(c, tx))
  {
    if tx.Submit? {
      SubmitKeeps(c, tx);
    } else if tx.Interfere? {
      InterfereKeeps(c, tx);
    } else if tx.Activate? || tx.Cancel? {
      OpenTxKeeps(c, tx);
    } else {
      var c' := ApplyTx(c, tx);
      assert forall id, st :: HasStatus(c.gov, id, st) <==> HasStatus(c'.gov, id, st);
      assert forall id :: Retired(c, id) ==> Retired(c', id);
    }
  }

  lemma TxDeposit(c: Chain, tx: Tx, g0: Gov)
    requires Inv(c) && DepositBooks(c, g0)
    ensures DepositBooks(ApplyTx(c, tx), g0)
  {
    hide DepositBooks, LockInv, TraceInv, Total, Count;
    var c' := ApplyTx(c, tx);
    if tx.Submit? || tx.AddDeposit? {
      var id := if tx.Submit? then c.gov.nextId else tx.id;
      if c' != c {
        assert tx.Submit? ==> Held(c.gov, id) == 0 && !Open(c.gov, id);
        assert forall i: nat :: i != id ==> (Open(c'.gov, i) <==> Open(c.gov, i));
        PaidInBooks(c, c', g0, Payment(id, tx.amount, PaidIn));
      }
    } else if tx.Cancel? && c' != c {
      assert Open(c.gov, tx.id);
      assert forall i: nat :: i != tx.id ==> (Open(c'.gov, i) <==> Open(c.gov, i));
      SettleBooks(c, c', g0, tx.id, Cancelled);
    } else {
      assert forall i: nat :: Open(c'.gov, i) <==> Open(c.gov, i);
      QuietBooks(c, c', g0);
    }
  }

  lemma PaidInBooks(c: Chain, c': Chain, g0: Gov, p: Payment)
    requires DepositBooks(c, g0) && Open(c'.gov, p.id)
    requires Open(c.gov, p.id) || p.id == c.gov.nextId
    requires c'.gov.nextId == if Open(c.gov, p.id) then c.gov.nextId else c.gov.nextId + 1
    requires forall i: nat :: i != p.id ==> (Open(c'.gov, i) <==> Open(c.gov, i))
    requires c'.gov.deposits == c.gov.deposits[p.id := Held(c.gov, p.id) + p.amount]
    requires c'.trace.settled == c.trace.settled && c'.trace.deposited == c.trace.deposited + [p]
    ensures DepositBooks(c', g0)
  {
    hide Total, Count;
    forall i: nat
      ensures Held(g0, i) + Total(c'.trace.deposited, i) == Held(c'.gov, i) + Total(c'.trace.settled, i)
    {
      TotalAppend(c.trace.deposited, p, i);
    }
    assert Opened(g0, c'.gov, p.id);
    assert forall i: nat :: i != p.id ==> (Opened(g0, c'.gov, i) <==> Opened(g0, c.gov, i));
  }

  lemma TxConversion(c: Chain, tx: Tx)
    requires GovInv(c.gov) && ConversionBooks(c)
    ensures ConversionBooks(ApplyTx(c, tx))
  {
    assert c.gov.nextId !in c.gov.proposals;
  }

  lemma TxTrace(c: Chain, tx: Tx)
    ensures var c' := ApplyTx(c, tx);
      c'.lock == c.lock
      && c'.trace == c.trace.(deposited := c'.trace.deposited, settled := c'.trace.settled)
  {
  }

  lemma TxIntact(c: Chain, tx: Tx, s: Setting)
    requires Inv(c) && Intact(c, s) && Respects(tx, s)
    ensures Intact(ApplyTx(c, tx), s)
  {
    hide TraceInv;
    if tx.Submit? {
      assert c.gov.nextId !in c.gov.proposals;
    }
  }

  lemma TxBooks(c: Chain, tx: Tx, c0: Chain, start: int, now: int, s: Setting)
    requires RunInv(c, c0, start, now, s) && Respects(tx, s)
    ensures RunInv(ApplyTx(c, tx), c0, start, now, s)
  {
    hide ApplyTx, Inv, DepositBooks, ConversionBooks, Intact, Respects;
    InvGov(c);
    TxKeeps(c, tx);
    TxDeposit(c, tx, c0.gov);
    TxConversion(c, tx);
    TxTrace(c, tx);
    TxIntact(c, tx, s);
    var c' := ApplyTx(c, tx);
    assert forall id :: HookDebt(c', id) == HookDebt(c, id);
    assert PassBooks(c', c0.lock.schedule, start, now);
  }

  lemma {:induction false} TxsBooks(c: Chain, txs: seq<Tx>, c0: Chain, start: int, now: int, s: Setting)
    requires RunInv(c, c0, start, now, s) && forall tx :: tx in txs ==> Respects(tx, s)
    ensures RunInv(ApplyTxs(c, txs), c0, start, now, s)
  {
    if txs != [] {
      TxsBooks(c, txs[..|txs| - 1], c0, start, now, s);
      TxBooks(ApplyTxs(c, txs[..|txs| - 1]), txs[|txs| - 1], c0, start, now, s);
    }
  }

  lemma UpgradeBooks(c: Chain, height: int, c0: Chain, start: int, now: int, s: Setting)
    requires RunInv(c, c0, start, now, s) && height > 0
    ensures RunInv(Upgraded(c, height), c0, start, now, s)
  {
    var c' := Upgraded(c, height);
    assert forall id :: Retired(c, id) ==> Retired(c', id);
    assert forall k :: Accounted(c, c0.lock.schedule, k) ==> Accounted(c', c0.lock.schedule, k);
    assert forall id :: HookDebt(c', id) == HookDebt(c, id);
  }

  /** Time may pass between blocks. */
  lemma Later(c: Chain, c0: Chain, start: int, now: int, later: int, s: Setting)
    requires RunInv(c, c0, start, now, s) && now <= later
    ensures RunInv(c, c0, start, later, s)
  {
  }

  // ----- the loops of an EndBlock

  lemma InactiveBooks(c: Chain, key: Key, env: Env, c0: Chain, start: int, now: int, s: Setting)
    requires RunInv(c, c0, start, now, s) && key in c.gov.inactive
    ensures InactiveStep(c, key, env).Some? && RunInv(InactiveStep(c, key, env).value, c0, start, now, s)
  {
    hide InactiveStep, DepositBooks, Inv, Intact;
    InvGov(c);
    InactiveKeeps(c, key, env);
    InactiveEffect(c, key, env);
    InactiveDeposit(c, key, env, c0.gov);
    InactiveIntact(c, key, env, s);
    var c' := InactiveStep(c, key, env).value;
    assert forall id :: HookDebt(c', id) == HookDebt(c, id);
    assert PassBooks(c', c0.lock.schedule, start, now);
  }

  lemma TallyBooks(c: Chain, key: Key, now: int, active: bool, env: Env, c0: Chain, start: int, s: Setting)
    requires RunInv(c, c0, start, now, s) && key in c.gov.active
    requires active ==> c.lock.activation.Some?
    ensures TallyStep(c, key, now, active, env).Some?
    ensures RunInv(TallyStep(c, key, now, active, env).value, c0, start, now, s)
  {
    assert HasStatus(c.gov, key.id, VotingPeriod);
    assert !Scheduled(c.lock, key.id);
    TallyKeeps(c, key, now, active, env);
    TallyLockEffect(c, key, now, active, env);
    TallyDeposit(c, key, now, active, env, c0.gov);
    TallyConversion(c, key, now, active, env);
    TallyIntact(c, key, now, active, env, s);
    var c' := TallyStep(c, key, now, active, env).value;
    hide TallyStep, DepositBooks, Inv, ConversionBooks, Intact;
    TallyPassBooks(c, key, now, active, env, c0.lock.schedule, start);
    forall id ensures HookDebt(c', id) == HookDebt(c, id) {
      TallyHookDebt(c, key, now, active, env, id);
    }
    hide HookDebt, PassBooks;
  }

  lemma MatureBooks(c: Chain, key: Key, now: int, env: Env, c0: Chain, start: int, s: Setting)
    requires RunInv(c, c0, start, now, s) && key in c.lock.schedule && key.time <= now
    requires forall k :: k in c.lock.schedule && k != key ==> Less(key, k)
    ensures RunInv(MatureStep(c, key, now, env), c0, start, now, s)
  {
    assert Finished(c.gov, key.id);
    MatureKeeps(c, key, now, env);
    MatureEffect(c, key, now, env);
    MatureDeposit(c, key, now, env, c0.gov);
    MatureConversion(c, key, now, env);
    MatureIntact(c, key, now, env, s);
    MaturePassBooks(c, key, now, env, c0.lock.schedule, start);
    var c' := MatureStep(c, key, now, env);
    forall id ensures HookDebt(c', id) == HookDebt(c, id) {
      MatureHookDebt(c, key, now, env, id);
    }
    hide MatureStep, DepositBooks, Inv, ConversionBooks, HookDebt, PassBooks, Intact;
  }

  lemma {:induction false} InactiveLoopBooks(c: Chain, keys: seq<Key>, env: Env, c0: Chain,
                                             start: int, now: int, s: Setting)
    requires RunInv(c, c0, start, now, s) && DistinctKeyIds(keys)
    requires forall k :: k in keys ==> k in c.gov.inactive
    ensures InactiveLoop(c, keys, env).Some? && RunInv(InactiveLoop(c, keys, env).value, c0, start, now, s)
  {
    hide InactiveStep, Inv, Books, Intact;
    if keys != [] {
      var n := |keys| - 1;
      LastIsNew(keys);
      InactiveLoopBooks(c, keys[..n], env, c0, start, now, s);
      InvGov(c);
      InactiveLoopEffect(c, keys[..n], env);
      InactiveBooks(InactiveLoop(c, keys[..n], env).value, keys[n], env, c0, start, now, s);
    }
  }

  lemma InvGov(c: Chain)
    requires Inv(c)
    ensures GovInv(c.gov)
  {
  }

  lemma {:induction false} TallyLoopBooks(c: Chain, keys: seq<Key>, now: int, active: bool, env: Env,
                                          c0: Chain, start: int, s: Setting)
    requires RunInv(c, c0, start, now, s) && DistinctKeyIds(keys)
    requires active ==> c.lock.activation.Some?
    requires forall k :: k in keys ==> k in c.gov.active
    ensures TallyLoop(c, keys, now, active, env).Some?
    ensures RunInv(TallyLoop(c, keys, now, active, env).value, c0, start, now, s)
  {
    hide TallyStep, Inv, Books, Intact;
    if keys != [] {
      var n := |keys| - 1;
      LastIsNew(keys);
      TallyLoopBooks(c, keys[..n], now, active, env, c0, start, s);
      InvGov(c);
      TallyLoopEffect(c, keys[..n], now, active, env);
      TallyBooks(TallyLoop(c, keys[..n], now, active, env).value, keys[n], now, active, env, c0, start, s);
    }
  }

  lemma {:induction false} MatureLoopBooks(c: Chain, keys: seq<Key>, now: int, env: Env, c0: Chain,
                                           start: int, s: Setting)
    requires RunInv(c, c0, start, now, s) && Ascending(keys)
    requires forall k :: k in keys ==> k in c.lock.schedule && k.time <= now
    requires forall k, q :: k in keys && q in c.lock.schedule && q !in keys ==> Less(k, q)
    ensures RunInv(MatureLoop(c, keys, now, env), c0, start, now, s)
  {
    hide MatureStep, Inv, Books, Intact;
    if keys != [] {
      var n := |keys| - 1;
      LastIsLeast(c, keys, now, env);
      MatureLoopBooks(c, keys[..n], now, env, c0, start, s);
      MatureBooks(MatureLoop(c, keys[..n], now, env), keys[n], now, env, c0, start, s);
    }
  }

  // ----- blocks and runs

  lemma EndBlockBooks(c: Chain, height: int, env: Env, c0: Chain, start: int, now: int, s: Setting)
    requires RunInv(c, c0, start, now, s)
    ensures EndBlock(c, height, now, env).Some?
    ensures RunInv(EndBlock(c, height, now, env).value, c0, start, now, s)
  {
    var active := Active(c.lock, height);
    InvGov(c);
    InactivatedEffect(c, now, env);
    DueIdsDistinct(c.gov.inactive, now);
    InactiveLoopBooks(c, Listing(UpTo(c.gov.inactive, now)), env, c0, start, now, s);
    var c1 := Inactivated(c, now, env).value;
    InvGov(c1);
    DueIdsDistinct(c1.gov.active, now);
    TallyLoopBooks(c1, Listing(UpTo(c1.gov.active, now)), now, active, env, c0, start, s);
    if active {
      var c2 := AfterTally(c1, now, active, env).value;
      var keys := Listing(UpTo(c2.lock.schedule, now));
      assert forall k :: k in keys <==> k in c2.lock.schedule && k.time <= now;
      hide RunInv, InactiveLoop, TallyLoop, MatureLoop;
      MatureLoopBooks(c2, keys, now, env, c0, start, s);
    }
  }

  lemma RunBlockBooks(c: Chain, height: int, b: Block, c0: Chain, start: int, now: int, s: Setting)
    requires RunInv(c, c0, start, now, s) && now <= b.time && height > 0
    requires forall tx :: tx in b.txs ==> Respects(tx, s)
    ensures RunBlock(c, height, b).Some?
    ensures RunInv(RunBlock(c, height, b).value, c0, start, b.time, s)
  {
    Later(c, c0, start, now, b.time, s);
    UpgradeBooks(c, height, c0, start, b.time, s);
    hide RunInv;
    TxsBooks(Begun(c, height, b), b.txs, c0, start, b.time, s);
    EndBlockBooks(ApplyTxs(Begun(c, height, b), b.txs), height, b.env, c0, start, b.time, s);
  }

  /** A state a run may begin in: consistent, with nothing recorded yet. */
  ghost predicate Fresh(c: Chain) {
    Inv(c) && c.trace == EMPTY_TRACE
  }

  lemma FreshBooks(c: Chain, start: int, s: Setting)
    requires Fresh(c) && start > 0 && Intact(c, s)
    ensures RunInv(c, c, start, start, s)
  {
  }

  /** No run from a consistent state is ever stopped by an error, and every
      state on the way is consistent, with correct books, whatever happens to
      finished proposals in between; what the setting promises of the first
      state stays true too if every transaction respects it. */
  lemma {:induction false} RunKeeps(c: Chain, height: int, start: int, blocks: seq<Block>, s: Setting)
    requires Fresh(c) && start > 0 && height > 0 && Timely(start, blocks)
    requires Intact(c, s) && AllRespect(blocks, s)
    ensures Run(c, height, blocks).Some?
    ensures RunInv(Run(c, height, blocks).value, c, start, LastTime(start, blocks), s)
  {
    hide RunBlock, RunInv, Fresh, Intact, Respects;
    if blocks == [] {
      FreshBooks(c, start, s);
    } else {
      var n := |blocks| - 1;
      assert Timely(start, blocks[..n]) && LastTime(start, blocks[..n]) <= blocks[n].time;
      assert AllRespect(blocks[..n], s) && blocks[n] in blocks;
      RunKeeps(c, height, start, blocks[..n], s);
      RunBlockBooks(Run(c, height, blocks[..n]).value, height + n, blocks[n], c,
                    start, LastTime(start, blocks[..n]), s);
    }
  }

  /** Nothing is known of what transactions do to records. */
  const ANY_SETTING := Setting(false, false)

  /** The same without any promise about records. */
  lemma AnyRunKeeps(c: Chain, height: int, start: int, blocks: seq<Block>)
    requires Fresh(c) && start > 0 && height > 0 && Timely(start, blocks)
    ensures Run(c, height, blocks).Some?
    ensures RunInv(Run(c, height, blocks).value, c, start, LastTime(start, blocks), ANY_SETTING)
  {
    hide Run, RunInv, Fresh;
    RunKeeps(c, height, start, blocks, ANY_SETTING);
  }
}
