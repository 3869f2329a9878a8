/** The state x/govtimelock works on and the meaning of each step of its
    EndBlocker, as functions from state to state.  The classes of module
    EndBlocker are proved against these functions; the theorems about whole
    runs are proved from them. */
module TimelockChain {
  import opened Options
  import opened OrderedKeys

  /** The application state that proposal messages and hooks act on. */
  type App(==, 0, !new)

  /** 48 hours in nanoseconds. */
  const MINIMUM_DELAY: int := 48 * 3600 * 1_000_000_000

  /** Times are nanoseconds since Go's zero time, which is itself "unset". */
  const ZERO_TIME: int := 0

  datatype Status = DepositPeriod | VotingPeriod | Passed | Rejected | Failed

  /** A record of x/gov's proposal table.  `decodable` is false when the stored
      bytes no longer decode; `messages` is None when GetMsgs fails. */
  datatype Proposal = Proposal(
    status: Status,
    expedited: bool,
    votingStart: int,
    decodable: bool,
    messages: Option<seq<nat>>)

  /** The record left behind for a proposal whose stored bytes do not decode. */
  const FAILED_RECORD := Proposal(Failed, false, 0, true, Some([]))

  /** What a message handler leaves in the cache context it ran in. */
  datatype HandlerResult = Done(app: App) | Errored(app: App) | Panicked(app: App)

  datatype HookResult = HookResult(app: App, ok: bool)

  datatype TallyResult = TallyResult(passes: bool, burnDeposits: bool)

  /** Everything an EndBlock reads from code outside this model. */
  datatype Env = Env(
    tally: nat -> TallyResult,
    burnPrevote: nat -> bool,
    votingPeriod: nat -> int,
    router: nat -> Option<App -> HandlerResult>,
    hookEnded: (nat, App) -> HookResult,
    hookDropped: (nat, App) -> HookResult)

  /** x/gov: proposals, its two queues, the deposits it holds, and the rest of
      the application. */
  datatype Gov = Gov(
    proposals: map<nat, Proposal>,
    nextId: nat,
    inactive: set<Key>,
    active: set<Key>,
    deposits: map<nat, nat>,
    app: App)

  /** The three items x/govtimelock stores. */
  datatype Lock = Lock(schedule: set<Key>, activation: Option<int>, delay: Option<int>)

  /** An amount paid into, refunded from or burned from a proposal's deposit, or
      handed back on cancellation less the share x/gov charges for it. */
  datatype Kind = PaidIn | Refund | Burn | Cancelled
  datatype Payment = Payment(id: nat, amount: nat, kind: Kind)
  /** Messages were run in the block at time `at` for the entry `key`. */
  datatype Ran = Ran(at: int, key: Key)
  /** The entry `key` was scheduled in the block at time `at`. */
  datatype Pass = Pass(at: int, key: Key)

  /** What happened so far; nothing in the program reads it. */
  datatype Trace = Trace(
    tallied: multiset<nat>,
    hooks: multiset<nat>,
    spot: seq<Ran>,
    matured: seq<Ran>,
    passes: seq<Pass>,
    converted: multiset<nat>,
    deposited: seq<Payment>,
    settled: seq<Payment>)

  const EMPTY_TRACE := Trace(multiset{}, multiset{}, [], [], [], multiset{}, [], [])

  datatype Chain = Chain(gov: Gov, lock: Lock, trace: Trace)

  // ----- x/gov operations the EndBlocker calls

  function Held(g: Gov, id: nat): nat {
    if id in g.deposits then g.deposits[id] else 0
  }

  function Settle(c: Chain, id: nat, kind: Kind): Chain {
    c.(gov := c.gov.(deposits := c.gov.deposits - {id}),
       trace := c.trace.(settled := c.trace.settled + [Payment(id, Held(c.gov, id), kind)]))
  }

  function SetProposal(c: Chain, id: nat, p: Proposal): Chain {
    c.(gov := c.gov.(proposals := c.gov.proposals[id := p]))
  }

  function WithoutId(keys: set<Key>, id: nat): set<Key> {
    set k | k in keys && k.id != id
  }

  function DeleteProposal(c: Chain, id: nat): Chain {
    c.(gov := c.gov.(proposals := c.gov.proposals - {id},
                     inactive := WithoutId(c.gov.inactive, id),
                     active := WithoutId(c.gov.active, id)))
  }

  function DequeueActive(c: Chain, key: Key): Chain {
    c.(gov := c.gov.(active := c.gov.active - {key}))
  }

  /** A hook runs in a cache context: a failing hook leaves nothing behind. */
  function Committed(app: App, r: HookResult): App {
    if r.ok then r.app else app
  }

  function FireEndedHook(c: Chain, id: nat, env: Env): Chain {
    c.(gov := c.gov.(app := Committed(c.gov.app, env.hookEnded(id, c.gov.app))),
       trace := c.trace.(hooks := c.trace.hooks + multiset{id}))
  }

  function FireDroppedHook(c: Chain, id: nat, env: Env): Chain {
    c.(gov := c.gov.(app := Committed(c.gov.app, env.hookDropped(id, c.gov.app))))
  }

  // ----- message execution

  /** The state after every message succeeded in order, or None as soon as one
      has no handler, fails or panics. */
  function RunMessages(env: Env, app: App, messages: seq<nat>): Option<App> {
    if messages == [] then Some(app)
    else
      match env.router(messages[0])
      case None => None
      case Some(handler) =>
        match handler(app)
        case Done(app') => RunMessages(env, app', messages[1..])
        case Errored(_) => None
        case Panicked(_) => None
  }

  function RunProposal(env: Env, app: App, p: Proposal): Option<App> {
    match p.messages
    case None => None
    case Some(messages) => RunMessages(env, app, messages)
  }

  /** All of the proposal's writes or none of them, and the status that says which. */
  function Execute(c: Chain, id: nat, p: Proposal, env: Env): Chain {
    match RunProposal(env, c.gov.app, p)
    case Some(app) => SetProposal(c.(gov := c.gov.(app := app)), id, p.(status := Passed))
    case None => SetProposal(c, id, p.(status := Failed))
  }

  // ----- one element of each EndBlocker loop

  function FailUnsupported(c: Chain, id: nat): Chain {
    Settle(SetProposal(c, id, FAILED_RECORD), id, Refund)
  }

  /** A queue entry naming no proposal is the one error that stops the block. */
  function InactiveStep(c: Chain, key: Key, env: Env): Option<Chain> {
    if key.id !in c.gov.proposals then None
    else if !c.gov.proposals[key.id].decodable then
      var c1 := FailUnsupported(c, key.id);
      Some(DeleteProposal(c1.(gov := c1.gov.(inactive := c1.gov.inactive - {key})), key.id))
    else
      var c1 := DeleteProposal(c, key.id);
      var c2 := Settle(c1, key.id, if env.burnPrevote(key.id) then Burn else Refund);
      Some(FireDroppedHook(c2, key.id, env))
  }

  function Schedule(l: Lock, key: Key): Lock {
    l.(schedule := l.schedule + {key})
  }

  function EffectiveDelay(l: Lock): int {
    if l.delay.None? || l.delay.value <= 0 then MINIMUM_DELAY else l.delay.value
  }

  predicate Active(l: Lock, height: int) {
    l.activation.Some? && height >= l.activation.value
  }

  function CountTally(c: Chain, id: nat): Chain {
    c.(trace := c.trace.(tallied := c.trace.tallied + multiset{id}))
  }

  function TallyStep(c: Chain, key: Key, now: int, active: bool, env: Env): Option<Chain> {
    if key.id !in c.gov.proposals then None
    else if !c.gov.proposals[key.id].decodable then
      Some(DequeueActive(FailUnsupported(c, key.id), key))
    else Some(Tallied(c, key, now, active, env))
  }

  function Tallied(c: Chain, key: Key, now: int, active: bool, env: Env): Chain
    requires key.id in c.gov.proposals
  {
    var p := c.gov.proposals[key.id];
    Concluded(CountedAndSettled(c, key, p.expedited, env), key.id, p, now, active, env)
  }

  /** The tally is taken, the deposit settled unless an expedited proposal
      failed, and the queue entry removed. */
  function CountedAndSettled(c: Chain, key: Key, expedited: bool, env: Env): Chain {
    var t := env.tally(key.id);
    var c0 := CountTally(c, key.id);
    var c1 := if !expedited || t.passes
              then Settle(c0, key.id, if t.burnDeposits then Burn else Refund) else c0;
    DequeueActive(c1, key)
  }

  function Concluded(c: Chain, id: nat, p: Proposal, now: int, active: bool, env: Env): Chain {
    var passes := env.tally(id).passes;
    if passes && !active then
      var c1 := Execute(c, id, p, env);
      FireEndedHook(c1.(trace := c1.trace.(spot := c1.trace.spot + [Ran(now, Key(now, id))])), id, env)
    else if passes then
      var entry := Key(now + EffectiveDelay(c.lock), id);
      SetProposal(c.(lock := Schedule(c.lock, entry),
                     trace := c.trace.(passes := c.trace.passes + [Pass(now, entry)])),
                  id, p.(status := Passed))
    else if p.expedited then
      var end := Key(p.votingStart + env.votingPeriod(id), id);
      var c1 := c.(gov := c.gov.(active := c.gov.active + {end}),
                   trace := c.trace.(converted := c.trace.converted + multiset{id}));
      FireEndedHook(SetProposal(c1, id, p.(expedited := false)), id, env)
    else
      FireEndedHook(SetProposal(c, id, p.(status := Rejected)), id, env)
  }

  function Unschedule(c: Chain, key: Key): Chain {
    c.(lock := c.lock.(schedule := c.lock.schedule - {key}))
  }

  /** A matured entry runs only for a proposal that loads and is StatusPassed. */
  predicate Runnable(g: Gov, id: nat) {
    id in g.proposals && g.proposals[id].decodable && g.proposals[id].status == Passed
  }

  function MatureStep(c: Chain, key: Key, now: int, env: Env): Chain {
    var id := key.id;
    if id !in c.gov.proposals then
      Unschedule(FireEndedHook(c, id, env), key)
    else if !c.gov.proposals[id].decodable then
      Unschedule(FireEndedHook(SetProposal(c, id, FAILED_RECORD), id, env), key)
    else if c.gov.proposals[id].status != Passed then
      Unschedule(FireEndedHook(c, id, env), key)
    else
      var c1 := Unschedule(Execute(c, id, c.gov.proposals[id], env), key);
      FireEndedHook(c1.(trace := c1.trace.(matured := c1.trace.matured + [Ran(now, key)])), id, env)
  }

  // ----- the loops, each over a snapshot of keys taken before it starts

  ghost function InactiveLoop(c: Chain, keys: seq<Key>, env: Env): Option<Chain> {
    if keys == [] then Some(c)
    else
      match InactiveLoop(c, keys[..|keys| - 1], env)
      case None => None
      case Some(c') => InactiveStep(c', keys[|keys| - 1], env)
  }

  ghost function TallyLoop(c: Chain, keys: seq<Key>, now: int, active: bool, env: Env): Option<Chain> {
    if keys == [] then Some(c)
    else
      match TallyLoop(c, keys[..|keys| - 1], now, active, env)
      case None => None
      case Some(c') => TallyStep(c', keys[|keys| - 1], now, active, env)
  }

  ghost function MatureLoop(c: Chain, keys: seq<Key>, now: int, env: Env): Chain {
    if keys == [] then c
    else MatureStep(MatureLoop(c, keys[..|keys| - 1], now, env), keys[|keys| - 1], now, env)
  }

  ghost function Inactivated(c: Chain, now: int, env: Env): Option<Chain> {
    InactiveLoop(c, Listing(UpTo(c.gov.inactive, now)), env)
  }

  ghost function AfterTally(c: Chain, now: int, active: bool, env: Env): Option<Chain> {
    TallyLoop(c, Listing(UpTo(c.gov.active, now)), now, active, env)
  }

  ghost function Matured(c: Chain, now: int, env: Env): Chain {
    MatureLoop(c, Listing(UpTo(c.lock.schedule, now)), now, env)
  }

  /** One EndBlock; None when it returns an error and so stops the chain. */
  ghost function EndBlock(c: Chain, height: int, now: int, env: Env): Option<Chain> {
    var active := Active(c.lock, height);
    match Inactivated(c, now, env)
    case None => None
    case Some(c1) =>
      match AfterTally(c1, now, active, env)
      case None => None
      case Some(c2) => Some(if active then Matured(c2, now, env) else c2)
  }
}
