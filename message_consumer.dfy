/**
 * The consumer service: it subscribes to a named queue, or to an exchange through a fresh
 * temporary queue, and wraps every callback in the envelope that parses the body, awaits the
 * callback and only then acknowledges the delivery.
 */
module Consumers {
  import opened Wrappers
  import opened Messaging
  import opened NameResolution
  import opened TemporaryQueues

  /**
   * What the delivery envelope issues for one delivery: the acknowledgement, once, exactly when
   * the body parses and the callback's promise resolves; nothing otherwise, and never a `nack`.
   */
  function Envelope(codec: Codec, callback: Callback, message: Delivery): (acks: seq<ChannelOp>)
    ensures |acks| <= 1
    ensures acks == [Ack(message.deliveryTag)] <==>
              codec.parse(message.content).Some? && callback(codec.parse(message.content).value, message)
    ensures acks == [] <==>
              codec.parse(message.content).None? || !callback(codec.parse(message.content).value, message)
    ensures forall op :: op in acks ==> op == Ack(message.deliveryTag)
  {
    match codec.parse(message.content)
    case None => []
    case Some(content) => if callback(content, message) then [Ack(message.deliveryTag)] else []
  }

  /** The operations `consumeFromExchange` awaits on its temporary queue, in program order. */
  function ExchangePlan(queueName: string, exchange: Option<string>, key: Option<string>, options: Option<Options>)
    : (plan: seq<ChannelOp>)
    ensures |plan| == 3
    ensures plan[0].AssertQueue? && plan[1].BindQueue? && plan[2].Consume?
    ensures forall i :: 0 <= i < 3 ==> plan[i].queue == queueName
    ensures plan[1].source == exchange && plan[1].pattern == key && plan[2].consumeOptions == options
  {
    [AssertQueue(queueName, None), BindQueue(queueName, exchange, key), ChannelOp.Consume(queueName, options)]
  }

  class RabbitMessageConsumer {
    const channel: Channel
    const resolver: NameResolver
    const registry: TemporaryQueueRegistry
    const codec: Codec
    /** The identifiers `v4()` hands out, in order; `issued` of them have been used. */
    const v4: nat -> string
    var issued: nat

    ghost predicate Valid()
      reads registry
    {
      registry.channel == channel && registry.Valid()
    }

    constructor (channel: Channel, resolver: NameResolver, registry: TemporaryQueueRegistry, codec: Codec,
                 v4: nat -> string)
      requires registry.channel == channel && registry.Valid()
      ensures Valid()
      ensures this.channel == channel && this.resolver == resolver && this.registry == registry
      ensures this.codec == codec && this.v4 == v4 && issued == 0
    {
      this.channel := channel;
      this.resolver := resolver;
      this.registry := registry;
      this.codec := codec;
      this.v4 := v4;
      issued := 0;
    }

    /**
     * `consumeQueue`: one `consume` on the resolved name with the options passed through. With no
     * token map the name lookup throws before anything is issued.
     */
    method ConsumeQueue(queue: string, callback: Callback, options: Option<Options>) returns (r: Outcome)
      modifies channel`log, channel`consumers
      ensures resolver.GetQueueName(queue).Failure? ==>
                r == Failure(TypeError) && channel.log == old(channel.log) && channel.consumers == old(channel.consumers)
      ensures resolver.GetQueueName(queue).Success? ==>
                var op := ChannelOp.Consume(resolver.GetQueueName(queue).value, options);
                && channel.log == old(channel.log) + [op]
                && (r.Success? <==> op !in channel.rejects)
                && (r.Failure? ==> r.error == Rejected(op))
                && channel.consumers == old(channel.consumers)
                     + (if r.Success? then [Consumer(op.queue, callback, options)] else [])
    {
      var queueName :- resolver.GetQueueName(queue);
      var ok := channel.Consume(queueName, callback, options);
      if !ok {
        return Failure(Rejected(ChannelOp.Consume(queueName, options)));
      }
      r := Success(());
    }

    /**
     * `consumeFromExchange`: draw one identifier, resolve it to a queue name, then await
     * `assertQueue`, record the name in the registry, await `bindQueue` with the exchange and key
     * unchanged, and await `consume`. The first refused step ends the call.
     */
    method ConsumeFromExchange(exchange: Option<string>, key: Option<string>, callback: Callback, options: Option<Options>)
      returns (r: Outcome)
      requires Valid()
      modifies this`issued, channel`log, channel`consumers, registry`registry
      ensures Valid()
      ensures issued == old(issued) + 1
      ensures resolver.GetQueueName(v4(old(issued))).Failure? ==>
                && r == Failure(TypeError)
                && channel.log == old(channel.log) && channel.consumers == old(channel.consumers)
                && registry.registry == old(registry.registry)
      ensures resolver.GetQueueName(v4(old(issued))).Success? ==>
                var name := resolver.GetQueueName(v4(old(issued))).value;
                var plan := ExchangePlan(name, exchange, key, options);
                && channel.log == old(channel.log) + UpTo(plan, channel.rejects)
                && (r.Success? <==> AllAccepted(plan, channel.rejects))
                && (r.Failure? ==> r.error.Rejected? && r.error.op in plan && r.error.op in channel.rejects)
                && registry.registry == (if plan[0] in channel.rejects || name in old(registry.registry)
                                         then old(registry.registry) else old(registry.registry) + [name])
                && channel.consumers == old(channel.consumers)
                     + (if r.Success? then [Consumer(name, callback, options)] else [])
    {
      ghost var consumers := channel.consumers;
      var id := v4(issued);
      issued := issued + 1;
      var queueName :- resolver.GetQueueName(id);
      var plan := ExchangePlan(queueName, exchange, key, options);
      var ok := channel.Await(AssertQueue(queueName, None));
      if !ok {
        assert UpTo(plan, channel.rejects) == [plan[0]];
        return Failure(Rejected(plan[0]));
      }
      registry.Register(queueName);
      ok := channel.Await(BindQueue(queueName, exchange, key));
      if !ok {
        assert UpTo(plan, channel.rejects) == plan[..2];
        return Failure(Rejected(plan[1]));
      }
      assert channel.consumers == consumers;
      ok := channel.Consume(queueName, callback, options);
      UpToIsPrefixUntilRefusal(plan, channel.rejects);
      assert UpTo(plan, channel.rejects) == plan;
      if !ok {
        assert channel.consumers == consumers;
        return Failure(Rejected(plan[2]));
      }
      assert channel.consumers == consumers + [Consumer(queueName, callback, options)];
      r := Success(());
    }

    /**
     * The envelope around a registered callback, run for one delivery to consumer `consumerTag`:
     * the body is parsed, the callback awaited, and only then the delivery acknowledged.
     */
    method HandleDelivery(consumerTag: nat, message: Delivery) returns (acked: bool)
      requires consumerTag < |channel.consumers|
      modifies channel`log
      ensures channel.log == old(channel.log) + Envelope(codec, channel.consumers[consumerTag].callback, message)
      ensures acked <==> Envelope(codec, channel.consumers[consumerTag].callback, message) != []
    {
      var callback := channel.consumers[consumerTag].callback;
      var parsed := codec.parse(message.content);
      if parsed.None? {
        return false;
      }
      acked := callback(parsed.value, message);
      if acked {
        channel.Fire(Ack(message.deliveryTag));
      }
    }
  }

  /** Every operation on a temporary queue names the one queue drawn for it. */
  lemma ExchangeOpsShareOneName(name: string, exchange: Option<string>, key: Option<string>, options: Option<Options>,
                                rejects: set<ChannelOp>)
    ensures forall op :: op in UpTo(ExchangePlan(name, exchange, key, options), rejects) ==>
              (op.AssertQueue? || op.BindQueue? || op.Consume?) && op.queue == name
  {
    var plan := ExchangePlan(name, exchange, key, options);
    var done := UpTo(plan, rejects);
    UpToIsPrefixUntilRefusal(plan, rejects);
    forall op | op in done ensures op.queue == name {
      var i :| 0 <= i < |done| && done[i] == op;
      assert done[i] == plan[i];
    }
  }

  /** The operations the envelope issues over a run of deliveries to one consumer. */
  function Envelopes(codec: Codec, callback: Callback, messages: seq<Delivery>): seq<ChannelOp>
  {
    if messages == [] then [] else Envelope(codec, callback, messages[0]) + Envelopes(codec, callback, messages[1..])
  }

  /** The delivery tags of the deliveries whose body parses and whose callback resolves. */
  function Handled(codec: Codec, callback: Callback, messages: seq<Delivery>): (tags: seq<nat>)
    ensures |tags| <= |messages|
  {
    if messages == [] then []
    else
      var m := messages[0];
      (if codec.parse(m.content).Some? && callback(codec.parse(m.content).value, m) then [m.deliveryTag] else [])
        + Handled(codec, callback, messages[1..])
  }

  /**
   * Across any run of deliveries, the envelope acknowledges exactly the deliveries that were
   * handled, each once and in delivery order, and never issues a `nack`.
   */
  lemma {:induction false} EnvelopesAckHandled(codec: Codec, callback: Callback, messages: seq<Delivery>)
    ensures Envelopes(codec, callback, messages) == seq(|Handled(codec, callback, messages)|,
              i requires 0 <= i < |Handled(codec, callback, messages)| => Ack(Handled(codec, callback, messages)[i]))
    ensures forall op :: op in Envelopes(codec, callback, messages) ==> op.Ack?
  {
    if messages != [] {
      EnvelopesAckHandled(codec, callback, messages[1..]);
    }
  }
}
