/** x/govtimelock's keeper: an ordered set of entries and two optional items. */
module TimelockKeeper {
  import opened Options
  import opened OrderedKeys
  import opened TimelockChain

  datatype ScheduledProposal = ScheduledProposal(proposalId: nat, executionTime: int)

  function EntryKey(s: ScheduledProposal): Key {
    Key(s.executionTime, s.proposalId)
  }

  function Entries(keys: seq<Key>): (r: seq<ScheduledProposal>)
    ensures |r| == |keys|
    ensures forall i :: 0 <= i < |r| ==> EntryKey(r[i]) == keys[i]
  {
    seq(|keys|, i requires 0 <= i < |keys| => ScheduledProposal(keys[i].id, keys[i].time))
  }

  /** The entries listed for a set of keys: each of them once, ordered by time
      and then id. */
  lemma EntriesOf(keys: set<Key>)
    ensures
      var r := Entries(Listing(keys));
      && (forall id, t :: ScheduledProposal(id, t) in r <==> Key(t, id) in keys)
      && forall i, j :: 0 <= i < j < |r| ==>
           r[i].executionTime < r[j].executionTime
           || (r[i].executionTime == r[j].executionTime && r[i].proposalId < r[j].proposalId)
  {
    var l := Listing(keys);
    var r := Entries(l);
    assert forall i :: 0 <= i < |r| ==> r[i] == ScheduledProposal(l[i].id, l[i].time);
    forall id, t ensures ScheduledProposal(id, t) in r <==> Key(t, id) in keys {
      if Key(t, id) in l {
        var i :| 0 <= i < |l| && l[i] == Key(t, id);
        assert r[i] == ScheduledProposal(id, t);
      }
      if ScheduledProposal(id, t) in r {
        var i :| 0 <= i < |r| && r[i] == ScheduledProposal(id, t);
        assert l[i] == Key(t, id) && l[i] in l;
      }
    }
    forall i, j | 0 <= i < j < |r| ensures Less(Key(r[i].executionTime, r[i].proposalId), l[j]) {
      assert Less(l[i], l[j]);
    }
  }

  class Keeper {
    var scheduled: set<Key>
    var activationHeight: Option<int>
    var executionDelay: Option<int>

    constructor ()
      ensures Contents() == Lock({}, None, None)
    {
      scheduled, activationHeight, executionDelay := {}, None, None;
    }

    ghost function Contents(): Lock
      reads this
    {
      Lock(scheduled, activationHeight, executionDelay)
    }

    method Schedule(proposalId: nat, executionTime: int)
      modifies this
      ensures Contents() == old(Contents()).(schedule := old(scheduled) + {Key(executionTime, proposalId)})
    {
      scheduled := scheduled + {Key(executionTime, proposalId)};
    }

    method Remove(executionTime: int, proposalId: nat)
      modifies this
      ensures Contents() == old(Contents()).(schedule := old(scheduled) - {Key(executionTime, proposalId)})
    {
      scheduled := scheduled - {Key(executionTime, proposalId)};
    }

    method ClearSchedule()
      modifies this
      ensures Contents() == old(Contents()).(schedule := {})
    {
      scheduled := {};
    }

    method SetActivationHeight(height: int)
      modifies this
      ensures Contents() == old(Contents()).(activation := Some(height))
    {
      activationHeight := Some(height);
    }

    method GetActivationHeight() returns (height: int)
      ensures height == if activationHeight.Some? then activationHeight.value else 0
    {
      height := 0;
      if activationHeight.Some? {
        height := activationHeight.value;
      }
    }

    method SetExecutionDelay(delay: int)
      modifies this
      ensures Contents() == old(Contents()).(delay := Some(delay))
    {
      executionDelay := Some(delay);
    }

    method GetExecutionDelay(fallback: int) returns (delay: int)
      ensures executionDelay.Some? && executionDelay.value > 0 ==> delay == executionDelay.value
      ensures executionDelay.None? || executionDelay.value <= 0 ==> delay == fallback
    {
      if executionDelay.None? {
        return fallback;
      }
      if executionDelay.value <= 0 {
        return fallback;
      }
      return executionDelay.value;
    }

    method IsActive(height: int) returns (active: bool)
      ensures active <==> activationHeight.Some? && height >= activationHeight.value
      ensures active <==> Active(Contents(), height)
    {
      if activationHeight.None? {
        return false;
      }
      return height >= activationHeight.value;
    }

    /** Entries at or before `now`, in execution order. */
    method Due(now: int) returns (due: seq<ScheduledProposal>)
      ensures due == Entries(Listing(UpTo(scheduled, now)))
      ensures forall id, t ::
        ScheduledProposal(id, t) in due <==> Key(t, id) in scheduled && t <= now
      ensures forall i, j :: 0 <= i < j < |due| ==>
        due[i].executionTime < due[j].executionTime
        || (due[i].executionTime == due[j].executionTime && due[i].proposalId < due[j].proposalId)
    {
      EntriesOf(UpTo(scheduled, now));
      var keys := IterateUntil(scheduled, now);
      due := Collect(keys);
    }

    method Export() returns (all: seq<ScheduledProposal>)
      ensures all == Entries(Listing(scheduled))
      ensures forall id, t :: ScheduledProposal(id, t) in all <==> Key(t, id) in scheduled
      ensures forall i, j :: 0 <= i < j < |all| ==>
        all[i].executionTime < all[j].executionTime
        || (all[i].executionTime == all[j].executionTime && all[i].proposalId < all[j].proposalId)
    {
      EntriesOf(scheduled);
      var keys := Iterate(scheduled);
      all := Collect(keys);
    }
  }

  method Collect(keys: seq<Key>) returns (r: seq<ScheduledProposal>)
    ensures r == Entries(keys)
  {
    r := [];
    for i := 0 to |keys|
      invariant r == Entries(keys[..i])
    {
      r := r + [ScheduledProposal(keys[i].id, keys[i].time)];
    }
    assert keys[..|keys|] == keys;
  }
}
