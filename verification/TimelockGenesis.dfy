/** x/govtimelock's genesis: validation, import, export, the zero-height reset
    and the upgrade handler's activation step. */
module TimelockGenesis {
  import opened Options
  import opened OrderedKeys
  import opened TimelockChain
  import opened TimelockInvariant
  import opened TimelockAccounts
  import opened TimelockRun
  import opened TimelockTheorems
  import opened TimelockActivation
  import opened TimelockKeeper
  import opened EndBlocker

  datatype GenesisState = GenesisState(
    scheduledProposals: seq<ScheduledProposal>,
    activationHeight: int,
    executionDelay: int)

  datatype GenesisError =
    | NegativeDelay | DelayBelowMinimum | NegativeHeight | InactiveButScheduled
    | ZeroProposalId | ZeroExecutionTime(id: nat) | ScheduledTwice(id: nat)

  function DefaultGenesis(): (gs: GenesisState)
    ensures ValidGenesis(gs)
    ensures forall height :: Active(Initialized(EMPTY_LOCK, gs), height) <==> height >= 1
  {
    GenesisState([], 1, 0)
  }

  const EMPTY_LOCK := Lock({}, None, None)

  /** What a genesis must satisfy, read from its fields alone. */
  ghost predicate ValidGenesis(gs: GenesisState) {
    && (gs.executionDelay == 0 || gs.executionDelay >= MINIMUM_DELAY)
    && gs.activationHeight >= 0
    && (gs.scheduledProposals != [] ==> gs.activationHeight > 0)
    && (forall s :: s in gs.scheduledProposals ==> s.proposalId > 0 && s.executionTime != ZERO_TIME)
    && (forall i, j :: 0 <= i < j < |gs.scheduledProposals| ==>
          gs.scheduledProposals[i].proposalId != gs.scheduledProposals[j].proposalId)
  }

  /** The reason given is true of the genesis. */
  ghost predicate Blames(gs: GenesisState, e: GenesisError) {
    match e
    case NegativeDelay => gs.executionDelay < 0
    case DelayBelowMinimum => 0 < gs.executionDelay < MINIMUM_DELAY
    case NegativeHeight => gs.activationHeight < 0
    case InactiveButScheduled => gs.activationHeight == 0 && gs.scheduledProposals != []
    case ZeroProposalId => exists s :: s in gs.scheduledProposals && s.proposalId == 0
    case ZeroExecutionTime(id) => ScheduledProposal(id, ZERO_TIME) in gs.scheduledProposals
    case ScheduledTwice(id) =>
      exists i, j ::
        0 <= i < j < |gs.scheduledProposals|
        && gs.scheduledProposals[i].proposalId == id == gs.scheduledProposals[j].proposalId
  }

  method Validate(gs: GenesisState) returns (err: Option<GenesisError>)
    ensures err.None? <==> ValidGenesis(gs)
    ensures err.None? <==>
      (&& (gs.executionDelay == 0 || gs.executionDelay >= 172_800_000_000_000)
       && gs.activationHeight >= 0
       && (gs.activationHeight == 0 ==> gs.scheduledProposals == [])
       && (forall s :: s in gs.scheduledProposals ==> s.proposalId > 0 && s.executionTime != 0)
       && (forall i, j :: 0 <= i < j < |gs.scheduledProposals| ==>
             gs.scheduledProposals[i].proposalId != gs.scheduledProposals[j].proposalId))
    ensures err.Some? ==> Blames(gs, err.value)
    ensures err == Some(NegativeDelay) <==> gs.executionDelay < 0
    ensures err == Some(DelayBelowMinimum) <==> 0 < gs.executionDelay < 172_800_000_000_000
  {
    if gs.executionDelay < 0 {
      return Some(NegativeDelay);
    }
    if gs.executionDelay != 0 && gs.executionDelay < MINIMUM_DELAY {
      return Some(DelayBelowMinimum);
    }
    if gs.activationHeight < 0 {
      return Some(NegativeHeight);
    }
    if gs.activationHeight == 0 && |gs.scheduledProposals| > 0 {
      return Some(InactiveButScheduled);
    }
    var seen: set<nat> := {};
    for i := 0 to |gs.scheduledProposals|
      invariant seen == set j | 0 <= j < i :: gs.scheduledProposals[j].proposalId
      invariant forall j :: 0 <= j < i ==>
        gs.scheduledProposals[j].proposalId > 0 && gs.scheduledProposals[j].executionTime != ZERO_TIME
      invariant forall j, k :: 0 <= j < k < i ==>
        gs.scheduledProposals[j].proposalId != gs.scheduledProposals[k].proposalId
    {
      var s := gs.scheduledProposals[i];
      if s.proposalId == 0 {
        return Some(ZeroProposalId);
      }
      if s.executionTime == ZERO_TIME {
        return Some(ZeroExecutionTime(s.proposalId));
      }
      if s.proposalId in seen {
        return Some(ScheduledTwice(s.proposalId));
      }
      seen := seen + {s.proposalId};
    }
    return None;
  }

  /** Every scheduled entry names a proposal x/gov can load and holds as passed. */
  ghost predicate GovAccepts(g: Gov, gs: GenesisState) {
    forall s :: s in gs.scheduledProposals ==> Runnable(g, s.proposalId)
  }

  method ValidateAgainstGov(gov: GovKeeper, gs: GenesisState) returns (ok: bool)
    ensures ok <==> GovAccepts(gov.Store(), gs)
    ensures ok <==> forall s :: s in gs.scheduledProposals ==>
      s.proposalId in gov.proposals
      && gov.proposals[s.proposalId].decodable && gov.proposals[s.proposalId].status == Passed
  {
    for i := 0 to |gs.scheduledProposals|
      invariant forall j :: 0 <= j < i ==> Runnable(gov.Store(), gs.scheduledProposals[j].proposalId)
    {
      var id := gs.scheduledProposals[i].proposalId;
      if id !in gov.proposals || !gov.proposals[id].decodable {
        return false;
      }
      if gov.proposals[id].status != Passed {
        return false;
      }
    }
    return true;
  }

  /** Whatever an unscheduled proposal looks like, passed or not, the import does
      not mind it: only the entries' own proposals are looked at. */
  lemma UnscheduledIgnored(g: Gov, gs: GenesisState, id: nat, p: Proposal)
    requires forall s :: s in gs.scheduledProposals ==> s.proposalId != id
    ensures GovAccepts(g.(proposals := g.proposals[id := p]), gs) <==> GovAccepts(g, gs)
  {
    var g' := g.(proposals := g.proposals[id := p]);
    forall s | s in gs.scheduledProposals ensures Runnable(g', s.proposalId) <==> Runnable(g, s.proposalId) {
      assert s.proposalId in g'.proposals <==> s.proposalId in g.proposals;
    }
  }

  ghost function Keys(scheduled: seq<ScheduledProposal>): set<Key> {
    set s | s in scheduled :: EntryKey(s)
  }

  lemma KeysOf(scheduled: seq<ScheduledProposal>)
    ensures forall id, t :: Key(t, id) in Keys(scheduled) <==> ScheduledProposal(id, t) in scheduled
  {
    forall id, t | ScheduledProposal(id, t) in scheduled ensures Key(t, id) in Keys(scheduled) {
      assert EntryKey(ScheduledProposal(id, t)) == Key(t, id);
    }
  }

  lemma KeysStep(scheduled: seq<ScheduledProposal>, s: ScheduledProposal)
    ensures Keys(scheduled + [s]) == Keys(scheduled) + {EntryKey(s)}
  {
  }

  /** The timelock state an imported genesis gives. */
  ghost function Initialized(l: Lock, gs: GenesisState): Lock {
    Lock(l.schedule + Keys(gs.scheduledProposals),
         if gs.activationHeight > 0 then Some(gs.activationHeight) else l.activation,
         if gs.executionDelay > 0 then Some(gs.executionDelay) else l.delay)
  }

  /** False when InitGenesis panics, in which case nothing has been written. */
  method InitGenesis(timelock: Keeper, gov: GovKeeper, gs: GenesisState) returns (ok: bool)
    modifies timelock
    ensures ok <==> GovAccepts(gov.Store(), gs)
    ensures timelock.Contents() == if ok then Initialized(old(timelock.Contents()), gs) else old(timelock.Contents())
    ensures ok ==>
      && (forall id, t :: Key(t, id) in timelock.scheduled
            <==> Key(t, id) in old(timelock.scheduled) || ScheduledProposal(id, t) in gs.scheduledProposals)
      && timelock.activationHeight
           == (if gs.activationHeight > 0 then Some(gs.activationHeight) else old(timelock.activationHeight))
      && timelock.executionDelay
           == (if gs.executionDelay > 0 then Some(gs.executionDelay) else old(timelock.executionDelay))
  {
    ok := ValidateAgainstGov(gov, gs);
    if !ok {
      return;
    }
    for i := 0 to |gs.scheduledProposals|
      invariant timelock.Contents()
        == old(timelock.Contents()).(schedule := old(timelock.scheduled) + Keys(gs.scheduledProposals[..i]))
    {
      var s := gs.scheduledProposals[i];
      timelock.Schedule(s.proposalId, s.executionTime);
      KeysStep(gs.scheduledProposals[..i], s);
      assert gs.scheduledProposals[..i + 1] == gs.scheduledProposals[..i] + [s];
    }
    assert gs.scheduledProposals[..|gs.scheduledProposals|] == gs.scheduledProposals;
    KeysOf(gs.scheduledProposals);
    if gs.activationHeight > 0 {
      timelock.SetActivationHeight(gs.activationHeight);
    }
    if gs.executionDelay > 0 {
      timelock.SetExecutionDelay(gs.executionDelay);
    }
  }

  ghost function Exported(l: Lock): GenesisState {
    GenesisState(Entries(Listing(l.schedule)),
                 if l.activation.Some? then l.activation.value else 0,
                 EffectiveDelay(l))
  }

  method ExportGenesis(timelock: Keeper) returns (gs: GenesisState)
    ensures gs == Exported(timelock.Contents())
    ensures forall id, t :: ScheduledProposal(id, t) in gs.scheduledProposals <==> Key(t, id) in timelock.scheduled
    ensures gs.activationHeight == if timelock.activationHeight.Some? then timelock.activationHeight.value else 0
    ensures gs.executionDelay
      == if timelock.executionDelay.Some? && timelock.executionDelay.value > 0
         then timelock.executionDelay.value else 172_800_000_000_000
  {
    var scheduled := timelock.Export();
    var activationHeight := timelock.GetActivationHeight();
    var executionDelay := timelock.GetExecutionDelay(MINIMUM_DELAY);
    return GenesisState(scheduled, activationHeight, executionDelay);
  }

  /** The fork's timelock state: nothing in flight, active from its first block. */
  function ZeroHeight(l: Lock): Lock {
    l.(schedule := {}, activation := Some(1))
  }

  method PrepForZeroHeightGenesis(timelock: Keeper)
    modifies timelock
    ensures timelock.Contents() == ZeroHeight(old(timelock.Contents()))
    ensures timelock.Contents() == Lock({}, Some(1), old(timelock.executionDelay))
  {
    timelock.SetActivationHeight(1);
    timelock.ClearSchedule();
  }

  method ActivateAtUpgrade(timelock: Keeper, blockHeight: int, ghost gov: GovKeeper)
    modifies timelock
    ensures State(gov, timelock) == Upgraded(old(State(gov, timelock)), blockHeight)
    ensures forall height :: Active(timelock.Contents(), height) <==> height >= blockHeight
    ensures timelock.Contents() == old(timelock.Contents()).(activation := Some(blockHeight))
  {
    timelock.SetActivationHeight(blockHeight);
  }

  // ----- genesis, run, export, genesis

  /** An accepted genesis starts a consistent chain. */
  lemma GenesisStarts(g: Gov, gs: GenesisState)
    requires GovInv(g) && ValidGenesis(gs) && GovAccepts(g, gs)
    ensures var c := Chain(g, Initialized(EMPTY_LOCK, gs), EMPTY_TRACE);
      && Fresh(c) && AllPassed(c)
      && (c.lock.delay.None? || c.lock.delay.value >= 172_800_000_000_000)
  {
    var c := Chain(g, Initialized(EMPTY_LOCK, gs), EMPTY_TRACE);
    forall a, b | a in c.lock.schedule && b in c.lock.schedule && a.id == b.id ensures a == b {
      var i :| 0 <= i < |gs.scheduledProposals| && EntryKey(gs.scheduledProposals[i]) == a;
      var j :| 0 <= j < |gs.scheduledProposals| && EntryKey(gs.scheduledProposals[j]) == b;
      assert i == j;
    }
    assert LockInv(c);
  }

  /** On a chain started from a validated genesis every proposal that passes
      waits 48 hours before its messages run. */
  lemma ValidGenesisWaits(g: Gov, gs: GenesisState, height: int, start: int, blocks: seq<Block>)
    requires GovInv(g) && ValidGenesis(gs) && GovAccepts(g, gs)
    requires start > 0 && height > 0 && Timely(start, blocks)
    ensures
      var c := Chain(g, Initialized(EMPTY_LOCK, gs), EMPTY_TRACE);
      && Run(c, height, blocks).Some?
      && var t := Run(c, height, blocks).value.trace;
         && (forall p :: p in t.passes ==> p.key.time >= p.at + 172_800_000_000_000)
         && (forall r :: r in t.matured && r.key !in c.lock.schedule ==>
               exists p :: p in t.passes && p.key == r.key && r.at >= p.at + 172_800_000_000_000)
  {
    hide Run, GovInv, ValidGenesis, GovAccepts, Initialized, Fresh;
    GenesisStarts(g, gs);
    FullWait(Chain(g, Initialized(EMPTY_LOCK, gs), EMPTY_TRACE), height, start, blocks);
  }

  lemma ExportedKeys(l: Lock)
    ensures Keys(Exported(l).scheduledProposals) == l.schedule
    ensures forall s :: s in Exported(l).scheduledProposals <==> EntryKey(s) in l.schedule
  {
    var keys := Listing(l.schedule);
    var es := Exported(l).scheduledProposals;
    forall s ensures s in es <==> EntryKey(s) in l.schedule {
      if s in es {
        var i :| 0 <= i < |es| && es[i] == s;
        assert EntryKey(s) == keys[i] && keys[i] in keys;
      }
      if EntryKey(s) in keys {
        var i :| 0 <= i < |keys| && keys[i] == EntryKey(s);
        assert es[i] == s;
      }
    }
    forall k | k in l.schedule ensures k in Keys(es) {
      assert EntryKey(ScheduledProposal(k.id, k.time)) == k;
      assert ScheduledProposal(k.id, k.time) in es;
    }
  }

  ghost predicate ScheduledDecode(c: Chain) {
    forall k :: k in c.lock.schedule && k.id in c.gov.proposals ==> c.gov.proposals[k.id].decodable
  }

  /** A consistent state exports to a genesis that validates exactly if its
      delay is a production delay, and that x/gov accepts exactly if it still
      holds every scheduled proposal as passed and can load it. */
  lemma ExportAccepted(c: Chain)
    requires Inv(c)
    ensures ValidGenesis(Exported(c.lock)) <==> EffectiveDelay(c.lock) >= MINIMUM_DELAY
    ensures GovAccepts(c.gov, Exported(c.lock)) <==> forall k :: k in c.lock.schedule ==> Runnable(c.gov, k.id)
    ensures AllPassed(c) ==> (GovAccepts(c.gov, Exported(c.lock)) <==> ScheduledDecode(c))
  {
    ExportedKeys(c.lock);
    var es := Exported(c.lock).scheduledProposals;
    var keys := Listing(c.lock.schedule);
    assert forall i :: 0 <= i < |keys| ==> keys[i] in keys && EntryKey(es[i]) == keys[i];
    forall i, j | 0 <= i < j < |es| ensures es[i].proposalId != es[j].proposalId {
      assert Less(keys[i], keys[j]);
    }
    if es != [] {
      assert keys[0] in c.lock.schedule;
    }
    forall k | k in c.lock.schedule && GovAccepts(c.gov, Exported(c.lock))
      ensures Runnable(c.gov, k.id)
    {
      assert ScheduledProposal(k.id, k.time) in es;
    }
  }

  /** Importing an export restores the schedule, the answer of IsActive at every
      height and the delay in force. */
  lemma ReimportRestores(l: Lock)
    requires l.activation.Some? ==> l.activation.value > 0
    ensures var l' := Initialized(EMPTY_LOCK, Exported(l));
      && l'.schedule == l.schedule
      && (forall height :: Active(l', height) <==> Active(l, height))
      && EffectiveDelay(l') == EffectiveDelay(l)
      && Exported(l') == Exported(l)
  {
    ExportedKeys(l);
  }

  /** Finished proposals are left alone and stored bytes keep decoding. */
  const UNDAMAGED := Setting(true, true)

  /** Whatever a chain started from an accepted genesis has done, its export is
      again a valid genesis.  x/gov accepts it exactly if every scheduled
      proposal still decodes, provided nothing outside touched one; and outright
      if moreover every record decoded at first and none stopped decoding. */
  lemma RunExportsValid(g: Gov, gs: GenesisState, height: int, start: int, blocks: seq<Block>)
    requires GovInv(g) && ValidGenesis(gs) && GovAccepts(g, gs)
    requires start > 0 && height > 0 && Timely(start, blocks)
    ensures var c := Chain(g, Initialized(EMPTY_LOCK, gs), EMPTY_TRACE);
      && Run(c, height, blocks).Some?
      && var e := Run(c, height, blocks).value;
         && ValidGenesis(Exported(e.lock))
         && (AllRespect(blocks, UNDISTURBED) ==> (GovAccepts(e.gov, Exported(e.lock)) <==> ScheduledDecode(e)))
         && (AllDecodable(g) && AllRespect(blocks, UNDAMAGED) ==> GovAccepts(e.gov, Exported(e.lock)))
  {
    hide Run, Respects;
    var c := Chain(g, Initialized(EMPTY_LOCK, gs), EMPTY_TRACE);
    GenesisStarts(g, gs);
    AnyRunKeeps(c, height, start, blocks);
    ExportAccepted(Run(c, height, blocks).value);
    if AllRespect(blocks, UNDISTURBED) {
      RunKeeps(c, height, start, blocks, UNDISTURBED);
    }
    if AllDecodable(g) && AllRespect(blocks, UNDAMAGED) {
      RunKeeps(c, height, start, blocks, UNDAMAGED);
    }
  }

  lemma RunStarts(c: Chain, height: int)
    ensures Run(c, height, []) == Some(c)
  {
  }

  /** A fork made with the zero-height reset is accepted by its x/gov and runs
      no message, on the spot or matured, before its own first block time plus
      the delay it inherited. */
  lemma ForkWaits(c: Chain, blocks: seq<Block>)
    requires Inv(c)
    requires blocks != [] && blocks[0].time > 0 && Timely(blocks[0].time, blocks)
    ensures GovAccepts(c.gov, Exported(ZeroHeight(c.lock)))
    ensures var f := Chain(c.gov, Initialized(EMPTY_LOCK, Exported(ZeroHeight(c.lock))), EMPTY_TRACE);
      && Run(f, 1, blocks).Some?
      && var t := Run(f, 1, blocks).value.trace;
         && t.spot == []
         && forall r :: r in t.matured ==> r.at >= blocks[0].time + EffectiveDelay(c.lock)
  {
    hide Run;
    var l := ZeroHeight(c.lock);
    var f := Chain(c.gov, Initialized(EMPTY_LOCK, Exported(l)), EMPTY_TRACE);
    ExportedKeys(l);
    ReimportRestores(l);
    assert Fresh(f) by { assert f.lock.schedule == {}; }
    NeverEarlyNeverTwice(f, 1, blocks[0].time, blocks);
    assert blocks[..|blocks|] == blocks && blocks[..0] == [];
    NothingOnTheSpot(f, 1, blocks, 0, |blocks|);
    assert Run(f, 1, []) == Some(f) by { RunStarts(f, 1); }
  }
}
