/**
 * The broker channel as the rest of the model sees it: an object that records, in order, every
 * operation it is asked to perform. The broker itself is not modelled; what it does is reduced to
 * one fact fixed when the channel is opened, the set of operations it refuses (the promise that
 * such an operation returns is rejected). Acknowledgements and publishing are synchronous calls
 * in the client library and are never refused here.
 */
module Messaging {
  import opened Wrappers

  /** A JSON value, what `JSON.parse` produces and `JSON.stringify` consumes. */
  datatype Json =
    | JNull
    | JBool(b: bool)
    | JNumber(n: real)
    | JString(s: string)
    | JArray(items: seq<Json>)
    | JObject(fields: map<string, Json>)

  /** Option tables (queue declaration, consume and publish options, message headers), passed through untouched. */
  type Options = map<string, Json>

  /** `JSON.parse` (partial: `None` when it throws) and `JSON.stringify`, taken as given. */
  datatype Codec = Codec(parse: string -> Option<Json>, stringify: Json -> string)

  /** A delivered message: its delivery tag, its body as text, and its header table, if any. */
  datatype Delivery = Delivery(deliveryTag: nat, content: string, headers: Option<Options>)

  datatype ExchangeType = Direct | Topic | HeadersExchange | Fanout | Match

  /** A message callback: `true` when the promise it returns resolves, `false` when it throws or rejects. */
  type Callback = (Json, Delivery) -> bool

  /** The channel operations of amqplib that the core issues. */
  datatype ChannelOp =
    | Prefetch(count: nat, global: bool)
    | AssertExchange(exchange: string, kind: ExchangeType)
    | AssertQueue(queue: string, queueOptions: Option<Options>)
    | BindQueue(queue: string, source: Option<string>, pattern: Option<string>)
    | Consume(queue: string, consumeOptions: Option<Options>)
    | Ack(tag: nat)
    | Nack(tag: nat)
    | SendToQueue(queue: string, content: string, publishOptions: Option<Options>)
    | Publish(exchange: string, routingKey: string, content: string, publishOptions: Option<Options>)
    | DeleteQueue(queue: string)

  /** What the core can throw or reject with. */
  datatype Failure =
    | TypeError                // e.g. the `in` operator applied to `undefined`
    | ParseFailedError         // the module's own error for an unparseable message
    | Rejected(op: ChannelOp)  // the broker refused an awaited channel operation

  /** How an awaited step settles: resolved, or rejected with a failure. */
  type Outcome = Result<(), Failure>

  /** A consumer registered on the channel: the wire queue name, the callback and its options. */
  datatype Consumer = Consumer(queue: string, callback: Callback, consumeOptions: Option<Options>)

  predicate AllAccepted(plan: seq<ChannelOp>, rejects: set<ChannelOp>) {
    forall i :: 0 <= i < |plan| ==> plan[i] !in rejects
  }

  /**
   * The operations actually issued when `plan` is awaited one after another: everything up to and
   * including the first one the broker refuses, after which the caller stops.
   */
  function UpTo(plan: seq<ChannelOp>, rejects: set<ChannelOp>): seq<ChannelOp>
  {
    if plan == [] then []
    else if plan[0] in rejects then [plan[0]]
    else [plan[0]] + UpTo(plan[1..], rejects)
  }

  /**
   * What `UpTo` issues is a prefix of the plan whose steps are all accepted except possibly the
   * last; it stops short only at a refusal, and it is the whole plan exactly when nothing is refused.
   */
  lemma {:induction false} UpToIsPrefixUntilRefusal(plan: seq<ChannelOp>, rejects: set<ChannelOp>)
    ensures var done := UpTo(plan, rejects);
            && |done| <= |plan| && done == plan[..|done|]
            && (forall i :: 0 <= i < |done| - 1 ==> done[i] !in rejects)
            && (|done| < |plan| ==> |done| > 0 && done[|done| - 1] in rejects)
            && (AllAccepted(plan, rejects) <==> done == plan && AllAccepted(done, rejects))
            && (!AllAccepted(plan, rejects) ==> |done| > 0 && done[|done| - 1] in rejects)
            && (plan != [] ==> |done| >= 1)
    decreases |plan|
  {
    if plan != [] && plan[0] !in rejects {
      var rest := UpTo(plan[1..], rejects);
      UpToIsPrefixUntilRefusal(plan[1..], rejects);
      AllAcceptedCons(plan, rejects);
      assert UpTo(plan, rejects) == [plan[0]] + rest;
      forall i | 1 <= i < |plan| ensures plan[i] == plan[1..][i - 1] { }
      assert plan == [plan[0]] + plan[1..];
    }
  }

  lemma AllAcceptedCons(plan: seq<ChannelOp>, rejects: set<ChannelOp>)
    requires plan != []
    ensures AllAccepted(plan, rejects) <==> plan[0] !in rejects && AllAccepted(plan[1..], rejects)
  {
    if plan[0] !in rejects && AllAccepted(plan[1..], rejects) {
      forall i | 0 <= i < |plan| ensures plan[i] !in rejects {
        if i > 0 { assert plan[i] == plan[1..][i - 1]; }
      }
    }
  }

  /** Two plans back to back are all accepted exactly when each of them is. */
  lemma AllAcceptedConcat(first: seq<ChannelOp>, second: seq<ChannelOp>, rejects: set<ChannelOp>)
    ensures AllAccepted(first + second, rejects) <==> AllAccepted(first, rejects) && AllAccepted(second, rejects)
  {
    if AllAccepted(first + second, rejects) {
      forall i | 0 <= i < |first| ensures first[i] !in rejects {
        assert first[i] == (first + second)[i];
      }
      forall j | 0 <= j < |second| ensures second[j] !in rejects {
        assert second[j] == (first + second)[|first| + j];
      }
    }
  }

  /** Awaiting two plans one after the other: the second starts only if the first went through. */
  lemma {:induction false} UpToConcat(first: seq<ChannelOp>, second: seq<ChannelOp>, rejects: set<ChannelOp>)
    ensures UpTo(first + second, rejects)
         == if AllAccepted(first, rejects) then first + UpTo(second, rejects) else UpTo(first, rejects)
    decreases |first|
  {
    if first == [] {
      assert first + second == second;
    } else {
      var rest := first[1..];
      assert (first + second)[0] == first[0];
      assert (first + second)[1..] == rest + second;
      AllAcceptedCons(first, rejects);
      if first[0] !in rejects {
        UpToConcat(rest, second, rejects);
        if AllAccepted(rest, rejects) {
          assert first == [first[0]] + rest;
          AppendAssociates([first[0]], rest, UpTo(second, rejects));
        }
      }
    }
  }

  lemma AppendAssociates<T>(a: seq<T>, b: seq<T>, c: seq<T>)
    ensures (a + b) + c == a + (b + c)
  {
  }

  /** A log that extends `before` by `own`, where `before` extends `log` by `ops`, extends `log` by `ops + own`. */
  lemma Rejoin<T>(after: seq<T>, before: seq<T>, log: seq<T>, ops: seq<T>, own: seq<T>, all: seq<T>)
    requires after == before + own && before == log + ops && all == ops + own
    ensures after == log + all
  {
  }

  /** Issuing the next step of a plan extends the issued prefix by that step. */
  lemma IssuedStep(log: seq<ChannelOp>, plan: seq<ChannelOp>, i: nat)
    requires i < |plan|
    ensures (log + plan[..i]) + [plan[i]] == log + plan[..i + 1]
  {
    assert plan[..i + 1] == plan[..i] + [plan[i]];
  }

  /** A prefix with every step accepted stays so when the next step is accepted too. */
  lemma AcceptedStep(plan: seq<ChannelOp>, i: nat, rejects: set<ChannelOp>)
    requires i < |plan| && AllAccepted(plan[..i], rejects) && plan[i] !in rejects
    ensures AllAccepted(plan[..i + 1], rejects)
  {
    assert plan[..i + 1] == plan[..i] + [plan[i]];
  }

  /** Awaiting a plan whose first refusal is at `k` issues exactly its first `k + 1` steps. */
  lemma {:induction false} UpToStopsAt(plan: seq<ChannelOp>, rejects: set<ChannelOp>, k: nat)
    requires k < |plan| && plan[k] in rejects
    requires AllAccepted(plan[..k], rejects)
    ensures UpTo(plan, rejects) == plan[..k + 1]
    ensures !AllAccepted(plan, rejects)
    decreases k
  {
    if k > 0 {
      assert plan[0] == plan[..k][0];
      assert plan[1..][..k - 1] == plan[..k][1..];
      UpToStopsAt(plan[1..], rejects, k - 1);
      assert plan[..k + 1] == [plan[0]] + plan[1..][..k];
    }
  }

  class Channel {
    /** Every operation issued on this channel, oldest first. */
    var log: seq<ChannelOp>
    /** The consumers registered by successful `consume` calls, indexed by consumer tag. */
    var consumers: seq<Consumer>
    /** The operations the broker refuses. */
    const rejects: set<ChannelOp>

    constructor (rejects: set<ChannelOp>)
      ensures log == [] && consumers == [] && this.rejects == rejects
    {
      log := [];
      consumers := [];
      this.rejects := rejects;
    }

    /** An awaited channel operation: it is issued, and its promise settles as the broker decides. */
    method Await(op: ChannelOp) returns (ok: bool)
      requires !op.Consume?
      modifies this`log
      ensures log == old(log) + [op]
      ensures ok == (op !in rejects)
    {
      log := log + [op];
      ok := op !in rejects;
    }

    /** A synchronous channel operation (`ack`, `sendToQueue`, `publish`). */
    method Fire(op: ChannelOp)
      requires op.Ack? || op.Nack? || op.SendToQueue? || op.Publish?
      modifies this`log
      ensures log == old(log) + [op]
    {
      log := log + [op];
    }

    /** `channel.consume(queue, callback, options)`: the consumer exists once the broker accepts. */
    method Consume(queue: string, callback: Callback, consumeOptions: Option<Options>) returns (ok: bool)
      modifies this`log, this`consumers
      ensures log == old(log) + [ChannelOp.Consume(queue, consumeOptions)]
      ensures ok == (ChannelOp.Consume(queue, consumeOptions) !in rejects)
      ensures consumers == old(consumers) + (if ok then [Consumer(queue, callback, consumeOptions)] else [])
    {
      var op := ChannelOp.Consume(queue, consumeOptions);
      log := log + [op];
      ok := op !in rejects;
      if ok {
        consumers := consumers + [Consumer(queue, callback, consumeOptions)];
      }
    }
  }
}
