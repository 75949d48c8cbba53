/**
 * The publisher service: `send` puts a serialised message on a queue (named directly or through a
 * token) and `publish` puts one on an exchange. Both are synchronous channel calls.
 */
module Publishers {
  import opened Wrappers
  import opened Messaging
  import opened NameResolution

  /** The queue `send` targets: the mapped name of a token, or the literal itself, never prefixed. */
  function SendTarget(queueMap: map<string, string>, queue: string): (name: string)
    ensures queue in queueMap ==> name == queueMap[queue]
    ensures queue !in queueMap ==> name == queue
  {
    if queue in queueMap then queueMap[queue] else queue
  }

  class RabbitMessagePublisher {
    /** The injected channel: `None` is the `null` the channel provider gives when the connect failed. */
    const channel: Option<Channel>
    /** The token map; it is only ever read, so no call can change it. */
    const queueMap: QueueMap
    const codec: Codec

    constructor (channel: Option<Channel>, queueMap: QueueMap, codec: Codec)
      ensures this.channel == channel && this.queueMap == queueMap && this.codec == codec
    {
      this.channel := channel;
      this.queueMap := queueMap;
      this.codec := codec;
    }

    /** The channels a call may write to: the injected one, or none when it is `null`. */
    function Sink(): (s: set<Channel>)
      ensures channel.Some? ==> s == {channel.value}
      ensures channel.None? ==> s == {}
    {
      if channel.Some? then {channel.value} else {}
    }

    /**
     * `send`: exactly one `sendToQueue` with the serialised message and the options untouched.
     * With no token map the `in` test throws before anything is sent, and with a `null` channel
     * the call on it throws.
     */
    method Send(queue: string, message: Json, options: Option<Options>) returns (r: Outcome)
      modifies Sink()`log
      ensures queueMap.None? ==>
                r == Failure(TypeError) && (channel.Some? ==> channel.value.log == old(channel.value.log))
      ensures queueMap.Some? && channel.None? ==> r == Failure(TypeError)
      ensures queueMap.Some? && channel.Some? ==>
                r.Success? &&
                channel.value.log == old(channel.value.log)
                  + [SendToQueue(SendTarget(queueMap.value, queue), codec.stringify(message), options)]
    {
      if queueMap.None? {
        return Failure(TypeError);
      }
      var queueName := if queue in queueMap.value then queueMap.value[queue] else queue;
      if channel.None? {
        return Failure(TypeError);
      }
      channel.value.Fire(SendToQueue(queueName, codec.stringify(message), options));
      r := Success(());
    }

    /**
     * `publish`: exactly one `publish` with exchange, key and options untouched; with a `null`
     * channel the call on it throws.
     */
    method Publish(exchange: string, key: string, message: Json, options: Option<Options>) returns (r: Outcome)
      modifies Sink()`log
      ensures channel.None? ==> r == Failure(TypeError)
      ensures channel.Some? ==>
                r.Success? &&
                channel.value.log == old(channel.value.log)
                  + [ChannelOp.Publish(exchange, key, codec.stringify(message), options)]
    {
      if channel.None? {
        return Failure(TypeError);
      }
      channel.value.Fire(ChannelOp.Publish(exchange, key, codec.stringify(message), options));
      r := Success(());
    }
  }

  /**
   * With a prefix in force, a literal queue name that is not a token reaches a different queue when
   * sent to than when consumed from: the consumer prefixes it and the publisher does not.
   */
  lemma LiteralSendMissesPrefixedConsumer(config: RabbitOptions, queueMap: map<string, string>, queue: string)
    requires queue !in queueMap
    requires NameResolver(config, Some(queueMap)).PrefixSet()
    requires !NameResolver(config, Some(queueMap)).IgnoresPrefix(queue)
    ensures NameResolver(config, Some(queueMap)).GetQueueName(queue).Success?
    ensures NameResolver(config, Some(queueMap)).GetQueueName(queue).value != SendTarget(queueMap, queue)
  {
    var resolved := NameResolver(config, Some(queueMap)).GetQueueName(queue).value;
    assert |resolved| > |queue|;
  }

  /**
   * A token reaches the same queue from both sides only when resolving its mapped name again
   * leaves that name alone: the publisher uses the mapped name as it is, the consumer prefixes it.
   */
  lemma TokenAgreesOnlyWithoutSecondPrefix(config: RabbitOptions, queueMap: map<string, string>, token: string)
    requires token in queueMap
    ensures NameResolver(config, Some(queueMap)).GetQueueName(token).Success?
    ensures NameResolver(config, Some(queueMap)).GetQueueName(token).value == SendTarget(queueMap, token)
        <==> !NameResolver(config, Some(queueMap)).PrefixSet()
             || NameResolver(config, Some(queueMap)).IgnoresPrefix(queueMap[token])
  {
    var r := NameResolver(config, Some(queueMap));
    if r.PrefixSet() && !r.IgnoresPrefix(queueMap[token]) {
      assert |r.ResolveConfigPrefix(queueMap[token])| > |queueMap[token]|;
    }
  }
}
