/**
 * The registry of generated (temporary) queue names: names are recorded as they are created and
 * every recorded queue is deleted when the module is destroyed.
 */
module TemporaryQueues {
  import opened Wrappers
  import opened Messaging

  /** The deletions the sweep intends, one per recorded name, in recording order. */
  function DeletePlan(names: seq<string>): (plan: seq<ChannelOp>)
    ensures |plan| == |names|
    ensures forall i :: 0 <= i < |names| ==> plan[i] == DeleteQueue(names[i])
  {
    seq(|names|, i requires 0 <= i < |names| => DeleteQueue(names[i]))
  }

  predicate NoDuplicates(names: seq<string>) {
    forall i, j :: 0 <= i < j < |names| ==> names[i] != names[j]
  }

  class TemporaryQueueRegistry {
    const channel: Channel
    /** The JavaScript `Set`: its elements in insertion order, each once. */
    var registry: seq<string>

    ghost predicate Valid()
      reads this
    {
      NoDuplicates(registry)
    }

    constructor (channel: Channel)
      ensures Valid() && this.channel == channel && registry == []
    {
      this.channel := channel;
      registry := [];
    }

    /** `register`: add a name; adding one already there changes nothing. No channel operation. */
    method Register(queueName: string)
      requires Valid()
      modifies this`registry
      ensures Valid()
      ensures registry == if queueName in old(registry) then old(registry) else old(registry) + [queueName]
    {
      if queueName !in registry {
        registry := registry + [queueName];
      }
    }

    /**
     * `onModuleDestroy`: delete the recorded queues one after another, in insertion order. The
     * first refused deletion rejects the whole sweep, so the names after it are not deleted.
     */
    method OnModuleDestroy() returns (r: Outcome)
      modifies channel`log
      ensures channel.log == old(channel.log) + UpTo(DeletePlan(registry), channel.rejects)
      ensures r.Success? <==> AllAccepted(DeletePlan(registry), channel.rejects)
      ensures r.Failure? ==> r.error.Rejected?
    {
      var plan := DeletePlan(registry);
      var i := 0;
      while i < |registry|
        invariant 0 <= i <= |registry|
        invariant AllAccepted(plan[..i], channel.rejects)
        invariant channel.log == old(channel.log) + plan[..i]
      {
        var ok := channel.Await(DeleteQueue(registry[i]));
        if !ok {
          IssuedStep(old(channel.log), plan, i);
          UpToStopsAt(plan, channel.rejects, i);
          return Failure(Rejected(DeleteQueue(registry[i])));
        }
        IssuedStep(old(channel.log), plan, i);
        AcceptedStep(plan, i, channel.rejects);
        i := i + 1;
      }
      assert plan[..i] == plan;
      UpToIsPrefixUntilRefusal(plan, channel.rejects);
      r := Success(());
    }
  }

  /**
   * When no deletion is refused, the sweep deletes every recorded queue exactly once, in the order
   * the names were recorded.
   */
  lemma {:induction false} SweepDeletesEachOnce(names: seq<string>, rejects: set<ChannelOp>)
    requires NoDuplicates(names)
    requires AllAccepted(DeletePlan(names), rejects)
    ensures UpTo(DeletePlan(names), rejects) == DeletePlan(names)
    ensures forall q :: q in names ==> multiset(UpTo(DeletePlan(names), rejects))[DeleteQueue(q)] == 1
    ensures forall op :: op in UpTo(DeletePlan(names), rejects) ==> op.DeleteQueue? && op.queue in names
  {
    UpToIsPrefixUntilRefusal(DeletePlan(names), rejects);
    forall q | q in names ensures multiset(DeletePlan(names))[DeleteQueue(q)] == 1 {
      CountDeletes(names, q);
    }
  }

  lemma {:induction false} CountDeletes(names: seq<string>, q: string)
    requires NoDuplicates(names)
    ensures multiset(DeletePlan(names))[DeleteQueue(q)] == if q in names then 1 else 0
    decreases |names|
  {
    if names != [] {
      var last := |names| - 1;
      var init := names[..last];
      assert DeletePlan(names) == DeletePlan(init) + [DeleteQueue(names[last])];
      CountDeletes(init, q);
      assert names == init + [names[last]];
      assert q in names <==> q in init || q == names[last];
      assert names[last] !in init by {
        forall i | 0 <= i < last ensures init[i] != names[last] { assert init[i] == names[i]; }
      }
    }
  }

  /**
   * When deletion `k` is the first the broker refuses, exactly the first `k + 1` recorded queues
   * get a delete request and no later queue does.
   */
  lemma SweepStopsAtFirstRefusal(names: seq<string>, rejects: set<ChannelOp>, k: nat)
    requires NoDuplicates(names)
    requires k < |names| && DeleteQueue(names[k]) in rejects
    requires forall i :: 0 <= i < k ==> DeleteQueue(names[i]) !in rejects
    ensures UpTo(DeletePlan(names), rejects) == DeletePlan(names[..k + 1])
    ensures forall j :: k < j < |names| ==> DeleteQueue(names[j]) !in UpTo(DeletePlan(names), rejects)
  {
    var plan := DeletePlan(names);
    assert plan[..k] == DeletePlan(names[..k]);
    UpToStopsAt(plan, rejects, k);
    assert plan[..k + 1] == DeletePlan(names[..k + 1]);
    var done := names[..k + 1];
    forall j | k < j < |names| ensures DeleteQueue(names[j]) !in DeletePlan(done) {
      forall i | 0 <= i < |done| ensures done[i] != names[j] {
        assert done[i] == names[i];
      }
    }
  }
}
