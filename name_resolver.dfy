/**
 * The RabbitMQ module's configuration and the queue-name resolver, which turns a queue token or a
 * literal queue name into the name used on the wire.
 */
module NameResolution {
  import opened Wrappers
  import opened Messaging

  datatype ExchangeConfig = ExchangeConfig(name: string, kind: ExchangeType)

  /** A configured queue: its name, an optional token, the per-queue prefix switch and declare options. */
  datatype QueueConfig = QueueConfig(
    name: string,
    token: Option<string>,
    ignorePrefix: bool,
    queueOptions: Option<Options>)

  /** The module options; `None` stands for an absent (undefined) entry. */
  datatype RabbitOptions = RabbitOptions(
    url: string,
    exchanges: Option<seq<ExchangeConfig>>,
    queues: Option<seq<QueueConfig>>,
    assertTopology: bool,
    queuePrefix: Option<string>)

  /** The token map handed to the resolver and the publisher; `None` is `undefined`. */
  type QueueMap = Option<map<string, string>>

  /** A queue has token `t` when its `token` is set to a truthy (non-empty) string. */
  predicate HasToken(q: QueueConfig, t: string) {
    q.token == Some(t) && t != ""
  }

  /** `queues.find(queue => queue.name === name)`: the first configured queue with that name. */
  function FindQueue(queues: seq<QueueConfig>, name: string): (r: Option<QueueConfig>)
    ensures r.Some? <==> exists i :: 0 <= i < |queues| && queues[i].name == name
    ensures r.Some? ==> exists i :: 0 <= i < |queues| && queues[i] == r.value && queues[i].name == name
                                  && forall j :: 0 <= j < i ==> queues[j].name != name
  {
    if queues == [] then None
    else if queues[0].name == name then Some(queues[0])
    else
      var r := FindQueue(queues[1..], name);
      assert forall i :: 1 <= i < |queues| ==> queues[i] == queues[1..][i - 1];
      r
  }

  datatype NameResolver = NameResolver(config: RabbitOptions, queueMap: QueueMap) {

    /** The global prefix is in force when `queuePrefix` is set to a non-empty string. */
    predicate PrefixSet() {
      config.queuePrefix.Some? && config.queuePrefix.value != ""
    }

    /** The first queue configured under this name asks for the prefix to be left off. */
    predicate IgnoresPrefix(queueName: string) {
      config.queues.Some? &&
      var q := FindQueue(config.queues.value, queueName);
      q.Some? && q.value.ignorePrefix
    }

    /** `resolveConfigPrefix`: prefix `queueName` with `queuePrefix-` unless that is switched off. */
    function ResolveConfigPrefix(queueName: string): (r: string)
      ensures !PrefixSet() ==> r == queueName
      ensures IgnoresPrefix(queueName) ==> r == queueName
      ensures PrefixSet() && !IgnoresPrefix(queueName) ==> r == config.queuePrefix.value + "-" + queueName
    {
      var queueConfig := if config.queues.Some? then FindQueue(config.queues.value, queueName) else None;
      if PrefixSet() && !(queueConfig.Some? && queueConfig.value.ignorePrefix)
      then config.queuePrefix.value + "-" + queueName
      else queueName
    }

    /**
     * `getQueueName`: a token of the map stands for its mapped name, anything else for itself, and
     * the result is always passed through `ResolveConfigPrefix`. With no map at all (undefined) the
     * `in` test throws.
     */
    function GetQueueName(nameOrToken: string): (r: Result<string, Failure>)
      ensures queueMap.None? <==> r == Failure(TypeError)
      ensures queueMap.Some? && nameOrToken in queueMap.value ==>
                r == Success(ResolveConfigPrefix(queueMap.value[nameOrToken]))
      ensures queueMap.Some? && nameOrToken !in queueMap.value ==>
                r == Success(ResolveConfigPrefix(nameOrToken))
    {
      if queueMap.None? then Failure(TypeError)
      else
        var queueName := if nameOrToken in queueMap.value then queueMap.value[nameOrToken] else nameOrToken;
        Success(ResolveConfigPrefix(queueName))
    }
  }

  /** With no prefix, or an empty one, every name resolves to itself. */
  lemma NoPrefixIsIdentity(config: RabbitOptions, queueName: string)
    requires config.queuePrefix == None || config.queuePrefix == Some("")
    ensures NameResolver(config, None).ResolveConfigPrefix(queueName) == queueName
  {
  }

  /** Absent `queues` behaves like a list with no queue of that name. */
  lemma AbsentQueuesMeansNoMatch(config: RabbitOptions, queueName: string)
    requires config.queues == None
    ensures NameResolver(config, None).ResolveConfigPrefix(queueName)
         == NameResolver(config.(queues := Some([])), None).ResolveConfigPrefix(queueName)
  {
  }

  /** Only the first queue configured under a name decides: a later duplicate's flag is ignored. */
  lemma {:induction false} FirstConfigDecides(config: RabbitOptions, i: nat, queueName: string)
    requires config.queues.Some? && i < |config.queues.value|
    requires config.queues.value[i].name == queueName
    requires forall j :: 0 <= j < i ==> config.queues.value[j].name != queueName
    ensures NameResolver(config, None).IgnoresPrefix(queueName) <==> config.queues.value[i].ignorePrefix
  {
    var qs := config.queues.value;
    var q := FindQueue(qs, queueName);
    var k :| 0 <= k < |qs| && qs[k] == q.value && qs[k].name == queueName
           && forall j :: 0 <= j < k ==> qs[j].name != queueName;
    assert k == i;
  }
}
