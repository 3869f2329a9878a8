/** What running a proposal's messages means, a chain of states in which each
    message succeeds in turn or no trace at all, and what each step of the
    EndBlocker therefore leaves in x/gov, field by field. */
module TimelockOutcomes {
  import opened Options
  import opened OrderedKeys
  import opened TimelockChain

  /** `states` witnesses that every message succeeded, each in the state the
      one before it left. */
  ghost predicate AllSucceed(env: Env, states: seq<App>, messages: seq<nat>) {
    && |states| == |messages| + 1
    && forall i :: 0 <= i < |messages| ==>
         env.router(messages[i]).Some? && env.router(messages[i]).value(states[i]) == Done(states[i + 1])
  }

  /** Messages are applied exactly when each of them succeeds in turn. */
  lemma {:induction false} RunMessagesMeaning(env: Env, app: App, messages: seq<nat>, last: App)
    ensures RunMessages(env, app, messages) == Some(last)
      <==> exists states :: AllSucceed(env, states, messages) && states[0] == app && states[|messages|] == last
  {
    if messages == [] {
      if app == last {
        assert AllSucceed(env, [app], messages);
      }
    } else {
      if RunMessages(env, app, messages) == Some(last) {
        var next := env.router(messages[0]).value(app).app;
        RunMessagesMeaning(env, next, messages[1..], last);
        var rest :| AllSucceed(env, rest, messages[1..]) && rest[0] == next && rest[|messages| - 1] == last;
        var states := [app] + rest;
        forall i | 0 <= i < |messages|
          ensures env.router(messages[i]).Some? && env.router(messages[i]).value(states[i]) == Done(states[i + 1])
        {
          if i > 0 { assert messages[i] == messages[1..][i - 1]; }
        }
        assert AllSucceed(env, states, messages);
      }
      if states :| AllSucceed(env, states, messages) && states[0] == app && states[|messages|] == last {
        assert env.router(messages[0]).value(states[0]) == Done(states[1]);
        assert AllSucceed(env, states[1..], messages[1..]) by {
          forall i | 0 <= i < |messages| - 1
            ensures env.router(messages[1..][i]).Some?
              && env.router(messages[1..][i]).value(states[1..][i]) == Done(states[1..][i + 1])
          {
            assert env.router(messages[i + 1]).value(states[i + 1]) == Done(states[i + 2]);
          }
        }
        assert states[1..][0] == states[1] && states[1..][|messages| - 1] == last;
        RunMessagesMeaning(env, states[1], messages[1..], last);
      }
    }
  }

  /** Running a proposal succeeds in `last` exactly if its messages load and lead
      there one after the other. */
  lemma RunProposalMeaning(env: Env, app: App, p: Proposal, last: App)
    ensures RunProposal(env, app, p) == Some(last)
      <==> (p.messages.Some?
            && exists states ::
                 AllSucceed(env, states, p.messages.value)
                 && states[0] == app && states[|p.messages.value|] == last)
  {
    if p.messages.Some? {
      RunMessagesMeaning(env, app, p.messages.value, last);
    }
  }

  /** Running it fails exactly if they lead nowhere. */
  lemma RunProposalFails(env: Env, app: App, p: Proposal)
    ensures RunProposal(env, app, p).None?
      <==> (p.messages.Some? ==> forall states :: AllSucceed(env, states, p.messages.value) ==> states[0] != app)
  {
    if p.messages.Some? {
      var messages := p.messages.value;
      forall states | AllSucceed(env, states, messages) && states[0] == app
        ensures RunMessages(env, app, messages).Some?
      {
        RunMessagesMeaning(env, app, messages, states[|messages|]);
      }
      if RunMessages(env, app, messages).Some? {
        RunMessagesMeaning(env, app, messages, RunMessages(env, app, messages).value);
      }
    }
  }

  /** The message handlers lead from `app` to `last`, all of them succeeding. */
  ghost predicate Leads(env: Env, app: App, p: Proposal, last: App) {
    && p.messages.Some?
    && exists states ::
         AllSucceed(env, states, p.messages.value) && states[0] == app && states[|p.messages.value|] == last
  }

  /** A matured entry whose proposal loads and is passed: its record ends passed
      with the application where its messages lead, or failed with the
      application as it was; the hook comes after. */
  lemma MatureOutcome(c: Chain, key: Key, now: int, env: Env, last: App)
    requires key.id in c.gov.proposals
    requires c.gov.proposals[key.id].decodable && c.gov.proposals[key.id].status == Passed
    ensures
      var p, g' := c.gov.proposals[key.id], MatureStep(c, key, now, env).gov;
      var ended, untouched := env.hookEnded(key.id, last), env.hookEnded(key.id, c.gov.app);
      && (Leads(env, c.gov.app, p, last) ==>
            && g'.proposals == c.gov.proposals[key.id := p.(status := Passed)]
            && g'.app == if ended.ok then ended.app else last)
      && ((forall a :: !Leads(env, c.gov.app, p, a)) ==>
            && g'.proposals == c.gov.proposals[key.id := p.(status := Failed)]
            && g'.app == if untouched.ok then untouched.app else c.gov.app)
  {
    ExecuteOutcome(c, key.id, c.gov.proposals[key.id], env, last);
    hide RunProposal, Leads, Execute;
  }

  lemma ExecuteOutcome(c: Chain, id: nat, p: Proposal, env: Env, last: App)
    ensures Leads(env, c.gov.app, p, last) ==>
      Execute(c, id, p, env)
        == c.(gov := c.gov.(app := last, proposals := c.gov.proposals[id := p.(status := Passed)]))
    ensures (forall a :: !Leads(env, c.gov.app, p, a)) ==>
      Execute(c, id, p, env) == c.(gov := c.gov.(proposals := c.gov.proposals[id := p.(status := Failed)]))
  {
    RunProposalMeaning(env, c.gov.app, p, last);
    var r := RunProposal(env, c.gov.app, p);
    if r.Some? {
      RunProposalMeaning(env, c.gov.app, p, r.value);
      assert Leads(env, c.gov.app, p, r.value);
    }
    hide RunProposal, AllSucceed;
  }

  /** Where handlers lead is unique. */
  lemma LeadsOnce(env: Env, app: App, p: Proposal, a: App, b: App)
    requires Leads(env, app, p, a) && Leads(env, app, p, b)
    ensures a == b
  {
    RunProposalMeaning(env, app, p, a);
    RunProposalMeaning(env, app, p, b);
  }

  /** The end of a vote on a proposal that loads, case by case. */
  lemma TallyOutcome(c: Chain, key: Key, now: int, active: bool, env: Env, last: App)
    requires key.id in c.gov.proposals && c.gov.proposals[key.id].decodable
    ensures
      var p, t := c.gov.proposals[key.id], env.tally(key.id);
      var step := TallyStep(c, key, now, active, env);
      var ended, untouched := env.hookEnded(key.id, last), env.hookEnded(key.id, c.gov.app);
      var unhooked := if untouched.ok then untouched.app else c.gov.app;
      var closed := c.gov.(active := c.gov.active - {key}, deposits := c.gov.deposits - {key.id});
      var again := Key(p.votingStart + env.votingPeriod(key.id), key.id);
      && step.Some?
      && (t.passes && !active && Leads(env, c.gov.app, p, last) ==>
            step.value.gov == closed.(
              proposals := c.gov.proposals[key.id := p.(status := Passed)],
              app := if ended.ok then ended.app else last))
      && (t.passes && !active && (forall a :: !Leads(env, c.gov.app, p, a)) ==>
            step.value.gov == closed.(
              proposals := c.gov.proposals[key.id := p.(status := Failed)], app := unhooked))
      && (t.passes && active ==>
            step.value.gov == closed.(proposals := c.gov.proposals[key.id := p.(status := Passed)]))
      && (!t.passes && p.expedited ==>
            step.value.gov == c.gov.(
              proposals := c.gov.proposals[key.id := p.(expedited := false)],
              active := c.gov.active - {key} + {again}, app := unhooked))
      && (!t.passes && !p.expedited ==>
            step.value.gov == closed.(
              proposals := c.gov.proposals[key.id := p.(status := Rejected)], app := unhooked))
  {
    var c1 := CountedAndSettled(c, key, c.gov.proposals[key.id].expedited, env);
    ExecuteOutcome(c1, key.id, c.gov.proposals[key.id], env, last);
    hide RunProposal, Leads, Execute;
  }

  /** A proposal dropped for want of deposits leaves no record and no queue
      entry; the hook is fired only for one that loads. */
  lemma DropOutcome(c: Chain, key: Key, env: Env)
    ensures InactiveStep(c, key, env).Some? <==> key.id in c.gov.proposals
    ensures key.id in c.gov.proposals ==>
      var g' := InactiveStep(c, key, env).value.gov;
      var dropped := env.hookDropped(key.id, c.gov.app);
      && g'.proposals == c.gov.proposals - {key.id}
      && g'.deposits == c.gov.deposits - {key.id}
      && (forall k: Key :: k in g'.inactive ==> k in c.gov.inactive && k.id != key.id)
      && (forall k: Key :: k in c.gov.inactive && k.id != key.id ==> k in g'.inactive)
      && (forall k: Key :: k in g'.active <==> k in c.gov.active && k.id != key.id)
      && g'.app == if c.gov.proposals[key.id].decodable && dropped.ok then dropped.app else c.gov.app
  {
    if key.id in c.gov.proposals {
      assert c.gov.proposals[key.id := FAILED_RECORD] - {key.id} == c.gov.proposals - {key.id};
    }
  }

  /** A vote that ends on a record that does not load, or on none. */
  lemma TallyUnsupported(c: Chain, key: Key, now: int, active: bool, env: Env)
    requires key.id in c.gov.proposals ==> !c.gov.proposals[key.id].decodable
    ensures TallyStep(c, key, now, active, env).Some? <==> key.id in c.gov.proposals
    ensures key.id in c.gov.proposals ==>
      var c' := TallyStep(c, key, now, active, env).value;
      && c'.gov == c.gov.(
           proposals := c.gov.proposals[key.id := Proposal(Failed, false, 0, true, Some([]))],
           active := c.gov.active - {key}, deposits := c.gov.deposits - {key.id})
      && c'.lock == c.lock && c'.trace.hooks == c.trace.hooks && c'.trace.tallied == c.trace.tallied
  {
  }

  /** A matured entry that cannot run is dropped with its hook; a record that
      does not load is failed, one off StatusPassed is left as it is. */
  lemma MatureDropped(c: Chain, key: Key, now: int, env: Env)
    requires key.id in c.gov.proposals && c.gov.proposals[key.id].decodable ==>
               c.gov.proposals[key.id].status != Passed
    ensures
      var c' := MatureStep(c, key, now, env);
      var ended := env.hookEnded(key.id, c.gov.app);
      && c'.gov.app == (if ended.ok then ended.app else c.gov.app)
      && c'.gov.proposals ==
           (if key.id in c.gov.proposals && !c.gov.proposals[key.id].decodable
            then c.gov.proposals[key.id := Proposal(Failed, false, 0, true, Some([]))]
            else c.gov.proposals)
      && c'.lock.schedule == c.lock.schedule - {key} && c'.trace.matured == c.trace.matured
  {
  }
}
