/**
 * The RabbitMQ module: the token map built from the configuration, the channel factory, the
 * argument binding of subscribed handler methods and the start-up sequence that declares the
 * topology and registers every discovered subscriber with the consumer.
 */
module Rabbit {
  import opened Wrappers
  import opened Messaging
  import opened NameResolution
  import opened MessageDecorators
  import opened TemporaryQueues
  import opened Consumers
  import opened Publishers

  // ---------------------------------------------------------------- token map

  /** No queue after position `i` holds token `t`, so a left-to-right build keeps queue `i`'s entry. */
  predicate LastHolder(queues: seq<QueueConfig>, i: nat, t: string) {
    forall j :: i < j < |queues| ==> !HasToken(queues[j], t)
  }

  /**
   * The token map: every queue with a truthy token contributes `token -> resolveConfigPrefix(name)`,
   * in configuration order, so of two queues with the same token the later one wins.
   */
  function TokenMap(config: RabbitOptions, queues: seq<QueueConfig>): map<string, string>
    decreases |queues|
  {
    if queues == [] then map[]
    else
      var n := |queues| - 1;
      var init := TokenMap(config, queues[..n]);
      var q := queues[n];
      if q.token.Some? && q.token.value != ""
      then init[q.token.value := NameResolver(config, None).ResolveConfigPrefix(q.name)]
      else init
  }

  /** The map's keys are exactly the truthy tokens, and each maps to the prefixed name of its last holder. */
  lemma {:induction false} TokenMapEntries(config: RabbitOptions, queues: seq<QueueConfig>)
    ensures forall t :: t in TokenMap(config, queues) <==> exists i :: 0 <= i < |queues| && HasToken(queues[i], t)
    ensures forall i, t :: 0 <= i < |queues| && HasToken(queues[i], t) && LastHolder(queues, i, t) ==>
              t in TokenMap(config, queues)
              && TokenMap(config, queues)[t] == NameResolver(config, None).ResolveConfigPrefix(queues[i].name)
    decreases |queues|
  {
    if queues != [] {
      var n := |queues| - 1;
      var init := queues[..n];
      TokenMapEntries(config, init);
      var m := TokenMap(config, queues);
      var m0 := TokenMap(config, init);
      forall t ensures t in m <==> exists i :: 0 <= i < |queues| && HasToken(queues[i], t) {
        if t in m0 {
          var i :| 0 <= i < n && HasToken(init[i], t);
          assert queues[i] == init[i];
        }
        if exists i :: 0 <= i < |queues| && HasToken(queues[i], t) {
          var i :| 0 <= i < |queues| && HasToken(queues[i], t);
          if i < n {
            assert init[i] == queues[i];
          }
        }
      }
      forall i, t | 0 <= i < |queues| && HasToken(queues[i], t) && LastHolder(queues, i, t)
        ensures t in m && m[t] == NameResolver(config, None).ResolveConfigPrefix(queues[i].name)
      {
        if i < n {
          assert init[i] == queues[i];
          assert !HasToken(queues[n], t);
          forall j | i < j < |init| ensures !HasToken(init[j], t) {
            assert init[j] == queues[j];
          }
        }
      }
    }
  }

  /** The map `forRoot` provides: with no queues configured it falls back to an empty collection. */
  function ForRootQueueMap(config: RabbitOptions): (r: QueueMap)
    ensures r.Some?
    ensures forall t :: t in r.value <==>
              config.queues.Some? && exists i :: 0 <= i < |config.queues.value| && HasToken(config.queues.value[i], t)
  {
    if config.queues.Some? then
      TokenMapEntries(config, config.queues.value);
      Some(TokenMap(config, config.queues.value))
    else Some(map[])
  }

  /** The map `forRootAsync` provides: with no queues configured there is no map at all. */
  function ForRootAsyncQueueMap(config: RabbitOptions): (r: QueueMap)
    ensures r.None? <==> config.queues.None?
    ensures r.Some? ==> forall t :: t in r.value <==>
              exists i :: 0 <= i < |config.queues.value| && HasToken(config.queues.value[i], t)
  {
    if config.queues.Some? then
      TokenMapEntries(config, config.queues.value);
      Some(TokenMap(config, config.queues.value))
    else None
  }

  /**
   * A token is prefixed twice on the consumer side: the map already holds the prefixed name, and
   * `getQueueName` prefixes the mapped value again.
   */
  lemma TokenResolvesPrefixedTwice(config: RabbitOptions, i: nat, t: string)
    requires config.queues.Some? && i < |config.queues.value|
    requires HasToken(config.queues.value[i], t) && LastHolder(config.queues.value, i, t)
    requires NameResolver(config, None).PrefixSet()
    requires !NameResolver(config, None).IgnoresPrefix(config.queues.value[i].name)
    requires !NameResolver(config, None).IgnoresPrefix(config.queuePrefix.value + "-" + config.queues.value[i].name)
    ensures NameResolver(config, ForRootQueueMap(config)).GetQueueName(t)
         == Success(config.queuePrefix.value + "-" + config.queuePrefix.value + "-" + config.queues.value[i].name)
  {
    var m := TokenMap(config, config.queues.value);
    TokenMapEntries(config, config.queues.value);
    var p := config.queuePrefix.value;
    var once := p + "-" + config.queues.value[i].name;
    assert t in m && m[t] == once;
    var resolver := NameResolver(config, Some(m));
    assert resolver.IgnoresPrefix(once) == NameResolver(config, None).IgnoresPrefix(once);
    assert resolver.ResolveConfigPrefix(once) == p + "-" + once;
    assert ForRootQueueMap(config) == Some(m);
    assert p + "-" + once == p + "-" + p + "-" + config.queues.value[i].name;
  }

  /** The publisher sends a token's messages to the singly prefixed name, the consumer listens on the doubly prefixed one. */
  lemma PublisherAndConsumerDisagreeOnTokens(config: RabbitOptions, i: nat, t: string)
    requires config.queues.Some? && i < |config.queues.value|
    requires HasToken(config.queues.value[i], t) && LastHolder(config.queues.value, i, t)
    requires NameResolver(config, None).PrefixSet()
    requires !NameResolver(config, None).IgnoresPrefix(config.queues.value[i].name)
    requires !NameResolver(config, None).IgnoresPrefix(config.queuePrefix.value + "-" + config.queues.value[i].name)
    ensures SendTarget(ForRootQueueMap(config).value, t) == config.queuePrefix.value + "-" + config.queues.value[i].name
    ensures NameResolver(config, ForRootQueueMap(config)).GetQueueName(t).value != SendTarget(ForRootQueueMap(config).value, t)
  {
    TokenResolvesPrefixedTwice(config, i, t);
    TokenMapEntries(config, config.queues.value);
    var p := config.queuePrefix.value;
    var n := config.queues.value[i].name;
    assert |p + "-" + p + "-" + n| > |p + "-" + n|;
  }

  // ---------------------------------------------------------------- channel factory

  /** An open broker connection; the broker's behaviour is reduced to the operations it refuses. */
  datatype Connection = Connection(url: string, rejects: set<ChannelOp>)

  /**
   * The channel provider: no connection (the connect attempt failed and was logged) gives no
   * channel; otherwise one fresh channel on which `prefetch(1, true)` is awaited once.
   */
  method OpenChannel(connection: Option<Connection>) returns (r: Result<Option<Channel>, Failure>)
    ensures connection.None? ==> r == Success(None)
    ensures connection.Some? && Prefetch(1, true) in connection.value.rejects ==> r == Failure(Rejected(Prefetch(1, true)))
    ensures connection.Some? && Prefetch(1, true) !in connection.value.rejects ==>
              && r.Success? && r.value.Some? && fresh(r.value.value)
              && r.value.value.log == [Prefetch(1, true)] && r.value.value.consumers == []
              && r.value.value.rejects == connection.value.rejects
  {
    if connection.None? {
      return Success(None);
    }
    var channel := new Channel(connection.value.rejects);
    var ok := channel.Await(Prefetch(1, true));
    if !ok {
      return Failure(Rejected(Prefetch(1, true)));
    }
    r := Success(Some(channel));
  }

  // ---------------------------------------------------------------- argument binding

  /** A value a handler parameter can receive. */
  datatype Argument = RawText(text: string) | ParsedBody(body: Json) | HeaderTable(table: Options)

  /** The injectable-values object: body text, headers and, when the body parsed, its content. */
  datatype InjectableValues = InjectableValues(contentRaw: string, headers: Option<Options>, content: Option<Json>)

  /** Property access on the injectable-values object; an absent property is `undefined`. */
  function Property(values: InjectableValues, key: string): Option<Argument>
  {
    if key == "contentRaw" then Some(RawText(values.contentRaw))
    else if key == "headers" then (if values.headers.Some? then Some(HeaderTable(values.headers.value)) else None)
    else if key == "content" then (if values.content.Some? then Some(ParsedBody(values.content.value)) else None)
    else None
  }

  /** The largest bound parameter index. */
  function MaxIndex(indices: set<nat>): (m: nat)
    requires indices != {}
    ensures m in indices && forall k :: k in indices ==> k <= m
  {
    MaxExists(indices);
    var m :| m in indices && forall k :: k in indices ==> k <= m;
    m
  }

  lemma {:induction false} MaxExists(indices: set<nat>)
    requires indices != {}
    ensures exists m :: m in indices && forall k :: k in indices ==> k <= m
    decreases |indices|
  {
    var x :| x in indices;
    if indices != {x} {
      var rest := indices - {x};
      MaxExists(rest);
      var m :| m in rest && forall k :: k in rest ==> k <= m;
      var top := if x > m then x else m;
      assert top in indices;
      forall k | k in indices ensures k <= top {
        if k != x { assert k in rest; }
      }
    } else {
      assert forall k :: k in indices ==> k <= x;
    }
  }

  /** The length of the array the reduction builds: one past the largest bound index. */
  function ArgCount(metadata: ParamMetadata): nat
  {
    if metadata == map[] then 0 else MaxIndex(metadata.Keys) + 1
  }

  /**
   * `args` is the projection of `values` through `metadata`: every bound position holds the
   * property its binding names, every unbound position below the last one is a hole (`undefined`),
   * and the array ends at the last bound position.
   */
  predicate BoundAs(args: seq<Option<Argument>>, metadata: ParamMetadata, values: InjectableValues) {
    && |args| == ArgCount(metadata)
    && (forall i :: i in metadata ==> i < |args| && args[i] == Property(values, BindingKey(metadata[i])))
    && (forall i :: 0 <= i < |args| && i !in metadata ==> args[i].None?)
    && (|args| > 0 ==> |args| - 1 in metadata)
  }

  /** The reduction over the metadata entries that builds the argument array. */
  function ArgumentList(metadata: ParamMetadata, values: InjectableValues): (args: seq<Option<Argument>>)
    ensures BoundAs(args, metadata, values)
  {
    var n := ArgCount(metadata);
    seq(n, i requires 0 <= i < n => if i in metadata then Property(values, BindingKey(metadata[i])) else None)
  }

  /**
   * `resolveListenerArguments`. A body that does not parse is fatal only when some parameter wants
   * the content (and with no metadata at all, `Object.values` throws). Without metadata the result
   * is `undefined`, written `Success(None)`.
   */
  function ResolveListenerArguments(message: Delivery, metadata: Option<ParamMetadata>, codec: Codec)
    : (r: Result<Option<seq<Option<Argument>>>, Failure>)
    ensures r == Failure(ParseFailedError) <==>
              codec.parse(message.content).None? && metadata.Some? && Content in metadata.value.Values
    ensures r == Failure(TypeError) <==> codec.parse(message.content).None? && metadata.None?
    ensures r == Success(None) <==> codec.parse(message.content).Some? && metadata.None?
    ensures r.Success? && r.value.Some? ==>
              metadata.Some? &&
              BoundAs(r.value.value, metadata.value,
                      InjectableValues(message.content, message.headers, codec.parse(message.content)))
    ensures metadata.Some? && (codec.parse(message.content).Some? || Content !in metadata.value.Values) ==>
              r == Success(Some(ArgumentList(metadata.value,
                InjectableValues(message.content, message.headers, codec.parse(message.content)))))
  {
    var values := InjectableValues(message.content, message.headers, codec.parse(message.content));
    if values.content.None? && metadata.None? then Failure(TypeError)
    else if values.content.None? && Content in metadata.value.Values then Failure(ParseFailedError)
    else if metadata.None? then Success(None)
    else Success(Some(ArgumentList(metadata.value, values)))
  }

  /**
   * A body that does not parse is silent when no parameter wants the content: the handler still
   * gets its arguments, the body text among them wherever `@MessageRaw()` asked for it.
   */
  lemma ParseFailureWithoutContentIsSilent(message: Delivery, metadata: ParamMetadata, codec: Codec, i: nat)
    requires codec.parse(message.content).None? && Content !in metadata.Values
    requires i in metadata && metadata[i] == ContentRaw
    ensures ResolveListenerArguments(message, Some(metadata), codec).Success?
    ensures ResolveListenerArguments(message, Some(metadata), codec).value.Some?
    ensures var args := ResolveListenerArguments(message, Some(metadata), codec).value.value;
            i < |args| && args[i] == Some(RawText(message.content))
  {
  }

  // ---------------------------------------------------------------- subscribers

  /**
   * The subscribe options of a handler method. `exchange` records the key and its value apart:
   * `None` when the key is absent, `Some(None)` when it is present but `undefined`.
   */
  datatype SubOptions = SubOptions(
    exchange: Option<Option<string>>,
    routingKey: Option<string>,
    queue: Option<string>,
    queueToken: Option<string>)

  /**
   * A method name of a controller's prototype, with what reflection finds for it: its subscribe
   * options, its parameter metadata, and the method itself (`true` when the promise it returns
   * resolves).
   */
  datatype Listener = Listener(
    name: string,
    subOptions: Option<SubOptions>,
    metadata: Option<ParamMetadata>,
    handler: seq<Option<Argument>> -> bool)

  /** A prototype member is registered when it is not the constructor and carries subscribe options. */
  predicate Subscribes(l: Listener) {
    l.name != "constructor" && l.subOptions.Some?
  }

  function SubscribedMethods(methods: seq<Listener>): (subs: seq<Listener>)
    ensures forall l :: l in subs <==> l in methods && Subscribes(l)
  {
    if methods == [] then []
    else (if Subscribes(methods[0]) then [methods[0]] else []) + SubscribedMethods(methods[1..])
  }

  /** The subscribers of all controllers, controller by controller, in method order. */
  function Discovered(controllers: seq<seq<Listener>>): (subs: seq<Listener>)
    ensures forall l :: l in subs <==> Subscribes(l) && exists c :: c in controllers && l in c
  {
    if controllers == [] then []
    else SubscribedMethods(controllers[0]) + Discovered(controllers[1..])
  }

  /**
   * The queue `consumeQueue` is given: the `queue` option. An absent option is written as the
   * string `"undefined"`, which is what the resolver's `in` test and the prefixing template make of it.
   */
  function ListenerQueue(o: SubOptions): string {
    o.queue.GetOr("undefined")
  }

  /**
   * The callback a subscriber hands to the consumer: it ignores the parsed body it is passed,
   * binds the arguments from the raw delivery and calls the handler with them spread. A failed
   * binding, or an `undefined` argument list, throws inside the callback.
   */
  function ListenerCallback(l: Listener, codec: Codec): Callback
  {
    (_: Json, message: Delivery) =>
      var args := ResolveListenerArguments(message, l.metadata, codec);
      args.Success? && args.value.Some? && l.handler(args.value.value)
  }

  /**
   * Behind the consumer's envelope a handler's own argument binding cannot fail to parse: the
   * envelope parses first and only calls the callback when that succeeds, so `ParseFailedError`
   * is never raised there, and a delivery is acknowledged exactly when the handler has metadata
   * and succeeds on the bound arguments.
   */
  lemma EnvelopeNeverSeesParseFailure(l: Listener, codec: Codec, message: Delivery)
    ensures codec.parse(message.content).Some? ==>
              ResolveListenerArguments(message, l.metadata, codec) != Failure(ParseFailedError)
    ensures Envelope(codec, ListenerCallback(l, codec), message) == [Ack(message.deliveryTag)] <==>
              && codec.parse(message.content).Some? && l.metadata.Some?
              && l.handler(ArgumentList(l.metadata.value,
                                        InjectableValues(message.content, message.headers, codec.parse(message.content))))
  {
  }

  /**
   * Everything a subscriber's registration depends on besides the state; `callbackOf` is the
   * message callback the module builds for each subscriber (`ListenerCallback` with its codec).
   */
  datatype Setting = Setting(resolver: NameResolver, rejects: set<ChannelOp>, v4: nat -> string, codec: Codec,
                             callbackOf: Listener -> Callback)

  /** The state registration changes: the channel's log and consumers, the registry, the ids drawn. */
  datatype World = World(log: seq<ChannelOp>, consumers: seq<Consumer>, registry: seq<string>, issued: nat)

  /** What registering one subscriber does: the operations issued, the consumers added, the temporary queue recorded. */
  datatype Effect = Effect(ops: seq<ChannelOp>, added: seq<Consumer>, temporary: Option<string>)

  /**
   * `registerSubscriber` for one subscriber that draws id number `issued`: when the `exchange` key
   * is present, even with an `undefined` value, it consumes from that exchange through a temporary
   * queue, otherwise from the `queue` option. Whatever fails is caught, so the effect is whatever the consumer did before failing.
   */
  function Registration(env: Setting, l: Listener, issued: nat): Effect
  {
    if l.subOptions.None? then Effect([], [], None)
    else
    var o := l.subOptions.value;
    var callback := env.callbackOf(l);
    if o.exchange.Some? then
      match env.resolver.GetQueueName(env.v4(issued))
      case Failure(_) => Effect([], [], None)
      case Success(name) =>
        var plan := ExchangePlan(name, o.exchange.value, o.routingKey, None);
        Effect(UpTo(plan, env.rejects),
               if AllAccepted(plan, env.rejects) then [Consumer(name, callback, None)] else [],
               if plan[0] in env.rejects then None else Some(name))
    else
      match env.resolver.GetQueueName(ListenerQueue(o))
      case Failure(_) => Effect([], [], None)
      case Success(name) =>
        var op := ChannelOp.Consume(name, None);
        Effect([op], if op !in env.rejects then [Consumer(name, callback, None)] else [], None)
  }

  /** The ids a subscriber draws: one for an exchange subscriber, none otherwise. */
  function Draws(l: Listener): nat
  {
    if l.subOptions.Some? && l.subOptions.value.exchange.Some? then 1 else 0
  }

  /** The registry after recording a temporary queue, with set semantics. */
  function Recorded(registry: seq<string>, temporary: Option<string>): seq<string>
  {
    if temporary.None? || temporary.value in registry then registry else registry + [temporary.value]
  }

  /**
   * The presence of the `exchange` key, not its value, picks the path: with the key present (even
   * as `undefined`) the subscriber draws one id and awaits the temporary-queue plan binding to that
   * value; with it absent it issues one `consume` on its `queue` option and draws nothing.
   */
  lemma ExchangeKeyDecides(env: Setting, l: Listener, issued: nat)
    requires Subscribes(l)
    ensures var o := l.subOptions.value;
            o.exchange.Some? && env.resolver.GetQueueName(env.v4(issued)).Success? ==>
              && Draws(l) == 1
              && Registration(env, l, issued).ops
                 == UpTo(ExchangePlan(env.resolver.GetQueueName(env.v4(issued)).value, o.exchange.value,
                                      o.routingKey, None), env.rejects)
    ensures var o := l.subOptions.value;
            o.exchange.None? && env.resolver.GetQueueName(ListenerQueue(o)).Success? ==>
              && Draws(l) == 0
              && Registration(env, l, issued).ops == [ChannelOp.Consume(env.resolver.GetQueueName(ListenerQueue(o)).value, None)]
  {
  }

  function SubscribeStep(env: Setting, w: World, l: Listener): World
  {
    var effect := Registration(env, l, w.issued);
    World(w.log + effect.ops, w.consumers + effect.added, Recorded(w.registry, effect.temporary), w.issued + Draws(l))
  }

  /** Registering subscribers one after another. */
  function SubscribeAll(env: Setting, w: World, subs: seq<Listener>): World
    decreases |subs|
  {
    if subs == [] then w
    else SubscribeStep(env, SubscribeAll(env, w, subs[..|subs| - 1]), subs[|subs| - 1])
  }

  function ExchangeCount(subs: seq<Listener>): nat
  {
    if subs == [] then 0
    else
      var last := subs[|subs| - 1];
      ExchangeCount(subs[..|subs| - 1]) + Draws(last)
  }

  /** Each subscriber's operations, each with the id it draws, one after another. */
  function AllOwnOps(env: Setting, subs: seq<Listener>, issued: nat): seq<ChannelOp>
    decreases |subs|
  {
    if subs == [] then []
    else
      var init := subs[..|subs| - 1];
      var last := subs[|subs| - 1];
      AllOwnOps(env, init, issued) + Registration(env, last, issued + ExchangeCount(init)).ops
  }

  lemma SubscribeAllSnoc(env: Setting, w: World, subs: seq<Listener>)
    requires subs != []
    ensures var before := SubscribeAll(env, w, subs[..|subs| - 1]);
            SubscribeAll(env, w, subs).log == before.log + Registration(env, subs[|subs| - 1], before.issued).ops
  {
  }

  lemma {:induction false} OwnOpsSnoc(env: Setting, subs: seq<Listener>, issued: nat, drawn: nat)
    requires subs != [] && drawn == issued + ExchangeCount(subs[..|subs| - 1])
    ensures AllOwnOps(env, subs, issued)
         == AllOwnOps(env, subs[..|subs| - 1], issued) + Registration(env, subs[|subs| - 1], drawn).ops
  {
  }

  /** With a token map present, a subscriber always issues at least its first operation. */
  lemma OwnOpsNonEmpty(env: Setting, l: Listener, issued: nat)
    requires Subscribes(l) && env.resolver.queueMap.Some?
    ensures |Registration(env, l, issued).ops| >= 1
  {
    var o := l.subOptions.value;
    if o.exchange.Some? {
      var name := env.resolver.GetQueueName(env.v4(issued));
      assert |UpTo(ExchangePlan(name.value, o.exchange.value, o.routingKey, None), env.rejects)| >= 1;
    }
  }

  /**
   * A failing registration does not hold the others back: the log of registering a list of
   * subscribers is each subscriber's own operations in turn, and each exchange subscriber draws
   * exactly one id.
   */
  lemma {:induction false} SubscribersAreIndependent(env: Setting, w: World, subs: seq<Listener>)
    ensures SubscribeAll(env, w, subs).log == w.log + AllOwnOps(env, subs, w.issued)
    ensures SubscribeAll(env, w, subs).issued == w.issued + ExchangeCount(subs)
    decreases |subs|
  {
    if subs != [] {
      var init := subs[..|subs| - 1];
      var l := subs[|subs| - 1];
      SubscribersAreIndependent(env, w, init);
      var before := SubscribeAll(env, w, init);
      var own := Registration(env, l, before.issued).ops;
      OwnOpsSnoc(env, subs, w.issued, before.issued);
      SubscribeAllSnoc(env, w, subs);
      Rejoin(SubscribeAll(env, w, subs).log, before.log, w.log, AllOwnOps(env, init, w.issued), own,
             AllOwnOps(env, subs, w.issued));
    }
  }

  /** With a token map present, every subscriber is tried: each issues at least one operation. */
  lemma {:induction false} EverySubscriberIsTried(env: Setting, subs: seq<Listener>, issued: nat)
    requires forall l :: l in subs ==> Subscribes(l)
    requires env.resolver.queueMap.Some?
    ensures |AllOwnOps(env, subs, issued)| >= |subs|
    decreases |subs|
  {
    if subs != [] {
      var init := subs[..|subs| - 1];
      var l := subs[|subs| - 1];
      assert l in subs;
      EverySubscriberIsTried(env, init, issued);
      OwnOpsNonEmpty(env, l, issued + ExchangeCount(init));
    }
  }

  function ExchangeOps(exchanges: seq<ExchangeConfig>): (ops: seq<ChannelOp>)
    ensures |ops| == |exchanges|
    ensures forall i :: 0 <= i < |exchanges| ==> ops[i] == AssertExchange(exchanges[i].name, exchanges[i].kind)
  {
    seq(|exchanges|, i requires 0 <= i < |exchanges| => AssertExchange(exchanges[i].name, exchanges[i].kind))
  }

  function QueueOps(resolver: NameResolver, queues: seq<QueueConfig>): (ops: seq<ChannelOp>)
    ensures |ops| == |queues|
    ensures forall j :: 0 <= j < |queues| ==>
              ops[j] == AssertQueue(resolver.ResolveConfigPrefix(queues[j].name), queues[j].queueOptions)
  {
    seq(|queues|, j requires 0 <= j < |queues| =>
          AssertQueue(resolver.ResolveConfigPrefix(queues[j].name), queues[j].queueOptions))
  }

  /**
   * What `onModuleInit` declares: nothing unless `assert` is set; then every exchange in
   * configuration order, followed by every queue under its wire name with its declare options.
   */
  function TopologyPlan(config: RabbitOptions, resolver: NameResolver): seq<ChannelOp>
  {
    if !config.assertTopology then []
    else ExchangeOps(config.exchanges.GetOr([])) + QueueOps(resolver, config.queues.GetOr([]))
  }

  /** The declarations in order: nothing without `assert`, else the exchanges first, then the queues. */
  lemma TopologyOrder(config: RabbitOptions, resolver: NameResolver)
    ensures !config.assertTopology ==> TopologyPlan(config, resolver) == []
    ensures config.assertTopology ==>
              var plan := TopologyPlan(config, resolver);
              var exchanges := config.exchanges.GetOr([]);
              var queues := config.queues.GetOr([]);
              && |plan| == |exchanges| + |queues|
              && (forall i :: 0 <= i < |exchanges| ==> plan[i] == AssertExchange(exchanges[i].name, exchanges[i].kind))
              && (forall j :: |exchanges| <= j < |plan| ==>
                    plan[j] == AssertQueue(resolver.ResolveConfigPrefix(queues[j - |exchanges|].name), queues[j - |exchanges|].queueOptions))
  {
    if config.assertTopology {
      var exchanges := config.exchanges.GetOr([]);
      var queues := config.queues.GetOr([]);
      var e := ExchangeOps(exchanges);
      var q := QueueOps(resolver, queues);
      var plan := TopologyPlan(config, resolver);
      assert plan == e + q;
      forall j | |e| <= j < |plan| ensures plan[j] == q[j - |e|] { }
    }
  }

  /**
   * The effect of `onModuleInit` on a live channel: the topology is declared step by step and a
   * refusal there ends start-up; otherwise every discovered subscriber is registered.
   */
  function InitWorld(env: Setting, config: RabbitOptions, controllers: seq<seq<Listener>>, w: World): World
  {
    var topology := TopologyPlan(config, env.resolver);
    if !AllAccepted(topology, env.rejects) then w.(log := w.log + UpTo(topology, env.rejects))
    else SubscribeAll(env, w.(log := w.log + topology), Discovered(controllers))
  }

  class RabbitModule {
    const config: RabbitOptions
    /** The injected channel; `None` when no connection could be made. */
    const channel: Option<Channel>
    const resolver: NameResolver
    const consumer: RabbitMessageConsumer
    /** What discovery finds: for each controller, the own property names of its prototype. */
    const controllers: seq<seq<Listener>>

    ghost predicate Valid()
      reads consumer, consumer.registry
    {
      && consumer.Valid() && consumer.resolver == resolver && resolver.config == config
      && (channel.Some? ==> consumer.channel == channel.value)
    }

    constructor (config: RabbitOptions, channel: Option<Channel>, resolver: NameResolver,
                 consumer: RabbitMessageConsumer, controllers: seq<seq<Listener>>)
      requires consumer.Valid() && consumer.resolver == resolver && resolver.config == config
      requires channel.Some? ==> consumer.channel == channel.value
      ensures Valid()
      ensures this.config == config && this.channel == channel && this.resolver == resolver
      ensures this.consumer == consumer && this.controllers == controllers
    {
      this.config := config;
      this.channel := channel;
      this.resolver := resolver;
      this.consumer := consumer;
      this.controllers := controllers;
    }

    function Env(): Setting {
      var codec := consumer.codec;
      Setting(resolver, consumer.channel.rejects, consumer.v4, codec, l => ListenerCallback(l, codec))
    }

    function CurrentWorld(): World
      reads consumer, consumer.channel, consumer.registry
    {
      World(consumer.channel.log, consumer.channel.consumers, consumer.registry.registry, consumer.issued)
    }

    /** `registerSubscriber`: hand the subscriber to the consumer; a failure is caught and logged. */
    method RegisterSubscriber(l: Listener)
      requires Valid() && Subscribes(l)
      modifies consumer.channel`log, consumer.channel`consumers, consumer`issued, consumer.registry`registry
      ensures Valid()
      ensures CurrentWorld() == SubscribeStep(Env(), old(CurrentWorld()), l)
    {
      var o := l.subOptions.value;
      var callback := ListenerCallback(l, consumer.codec);
      if o.exchange.Some? {
        var caught := consumer.ConsumeFromExchange(o.exchange.value, o.routingKey, callback, None);
      } else {
        var caught := consumer.ConsumeQueue(ListenerQueue(o), callback, None);
      }
    }

    /** The first declaration loop: every configured exchange, each awaited, until one is refused. */
    method AssertExchanges(exchanges: seq<ExchangeConfig>) returns (ok: bool)
      modifies consumer.channel`log
      ensures consumer.channel.log == old(consumer.channel.log) + UpTo(ExchangeOps(exchanges), consumer.channel.rejects)
      ensures ok <==> AllAccepted(ExchangeOps(exchanges), consumer.channel.rejects)
    {
      var ch := consumer.channel;
      var declared := ExchangeOps(exchanges);
      var i := 0;
      while i < |exchanges|
        invariant 0 <= i <= |exchanges|
        invariant AllAccepted(declared[..i], ch.rejects)
        invariant ch.log == old(ch.log) + declared[..i]
      {
        ok := ch.Await(AssertExchange(exchanges[i].name, exchanges[i].kind));
        if !ok {
          IssuedStep(old(ch.log), declared, i);
          UpToStopsAt(declared, ch.rejects, i);
          return;
        }
        IssuedStep(old(ch.log), declared, i);
        AcceptedStep(declared, i, ch.rejects);
        i := i + 1;
      }
      assert declared[..i] == declared;
      UpToIsPrefixUntilRefusal(declared, ch.rejects);
      ok := true;
    }

    /** The second declaration loop: every configured queue under its wire name, until one is refused. */
    method AssertQueues(queues: seq<QueueConfig>) returns (ok: bool)
      modifies consumer.channel`log
      ensures consumer.channel.log == old(consumer.channel.log) + UpTo(QueueOps(resolver, queues), consumer.channel.rejects)
      ensures ok <==> AllAccepted(QueueOps(resolver, queues), consumer.channel.rejects)
    {
      var ch := consumer.channel;
      var declared := QueueOps(resolver, queues);
      var j := 0;
      while j < |queues|
        invariant 0 <= j <= |queues|
        invariant AllAccepted(declared[..j], ch.rejects)
        invariant ch.log == old(ch.log) + declared[..j]
      {
        ok := ch.Await(AssertQueue(resolver.ResolveConfigPrefix(queues[j].name), queues[j].queueOptions));
        if !ok {
          IssuedStep(old(ch.log), declared, j);
          UpToStopsAt(declared, ch.rejects, j);
          return;
        }
        IssuedStep(old(ch.log), declared, j);
        AcceptedStep(declared, j, ch.rejects);
        j := j + 1;
      }
      assert declared[..j] == declared;
      UpToIsPrefixUntilRefusal(declared, ch.rejects);
      ok := true;
    }

    /** The declaration part of `onModuleInit`: nothing unless `assert` is set, then exchanges, then queues. */
    method AssertTopology() returns (ok: bool)
      modifies consumer.channel`log
      ensures consumer.channel.log == old(consumer.channel.log) + UpTo(TopologyPlan(config, resolver), consumer.channel.rejects)
      ensures ok <==> AllAccepted(TopologyPlan(config, resolver), consumer.channel.rejects)
    {
      if !config.assertTopology {
        return true;
      }
      var exchanges := ExchangeOps(config.exchanges.GetOr([]));
      var queues := QueueOps(resolver, config.queues.GetOr([]));
      var plan := TopologyPlan(config, resolver);
      assert plan == exchanges + queues;
      UpToConcat(exchanges, queues, consumer.channel.rejects);
      AllAcceptedConcat(exchanges, queues, consumer.channel.rejects);
      ok := AssertExchanges(config.exchanges.GetOr([]));
      if !ok {
        assert UpTo(plan, consumer.channel.rejects) == UpTo(exchanges, consumer.channel.rejects);
        return;
      }
      UpToIsPrefixUntilRefusal(exchanges, consumer.channel.rejects);
      ghost var declared := consumer.channel.log;
      ok := AssertQueues(config.queues.GetOr([]));
      AppendAssociates(old(consumer.channel.log), exchanges, UpTo(queues, consumer.channel.rejects));
    }

    /** The discovery loop of `onModuleInit`: the subscribers registered one after another. */
    method RegisterAll(subs: seq<Listener>)
      requires Valid() && forall l :: l in subs ==> Subscribes(l)
      modifies consumer.channel`log, consumer.channel`consumers, consumer`issued, consumer.registry`registry
      ensures Valid()
      ensures CurrentWorld() == SubscribeAll(Env(), old(CurrentWorld()), subs)
    {
      var k := 0;
      while k < |subs|
        invariant 0 <= k <= |subs|
        invariant Valid()
        invariant CurrentWorld() == SubscribeAll(Env(), old(CurrentWorld()), subs[..k])
      {
        assert subs[..k + 1][..k] == subs[..k];
        RegisterSubscriber(subs[k]);
        k := k + 1;
      }
      assert subs[..k] == subs;
    }

    /**
     * `onModuleInit`: with no channel, nothing happens. Otherwise, when `assert` is set, every
     * exchange and then every queue is declared, each awaited; then every discovered subscriber
     * is registered in turn.
     */
    method OnModuleInit() returns (r: Outcome)
      requires Valid()
      modifies consumer.channel`log, consumer.channel`consumers, consumer`issued, consumer.registry`registry
      ensures Valid()
      ensures channel.None? ==> r.Success? && CurrentWorld() == old(CurrentWorld())
      ensures channel.Some? ==> CurrentWorld() == InitWorld(Env(), config, controllers, old(CurrentWorld()))
      ensures channel.Some? ==> (r.Success? <==> AllAccepted(TopologyPlan(config, resolver), consumer.channel.rejects))
      ensures r.Failure? ==>
                (channel.Some? &&
                 var done := UpTo(TopologyPlan(config, resolver), consumer.channel.rejects);
                 |done| > 0 && r.error == Rejected(done[|done| - 1]) && done[|done| - 1] in consumer.channel.rejects)
    {
      if channel.None? {
        return Success(());
      }
      var ok := AssertTopology();
      UpToIsPrefixUntilRefusal(TopologyPlan(config, resolver), consumer.channel.rejects);
      if !ok {
        var done := UpTo(TopologyPlan(config, resolver), consumer.channel.rejects);
        return Failure(Rejected(done[|done| - 1]));
      }
      RegisterAll(Discovered(controllers));
      r := Success(());
    }
  }
}
