# A verified model of the LonguCodes packages' core logic

This project models, in Dafny, the small sequential cores spread over several TypeScript
packages, and proves what each of them promises:

- **RabbitMQ integration** (`packages/rabbit`). It covers:
  - the queue-name resolver (token map, global prefix, per-queue `ignorePrefix`);
  - the token map built by `forRoot` and `forRootAsync`;
  - the channel factory;
  - the parameter decorators `@Message()`, `@MessageRaw()` and `@MessageHeaders()`;
  - the argument binding of subscribed handlers;
  - the consumer, with its ack-after-callback envelope;
  - the temporary-queue registry and its delete sweep;
  - the publisher;
  - the start-up sequence `onModuleInit` (declarations, then subscriber registration).

  The broker channel is an object that records the operations it is asked to perform, in order.
  The broker's only modelled behaviour is a fixed set of operations it refuses (`Messaging`).
  Every property about the integration is therefore a statement about that log.
- **Conventional-commit parsing and version-bump selection** (`nx-package-builder`). It covers:
  - the commit utilities (`getCommitMessage`, `parseCommit`, `getVersionBump`);
  - the `ci` executor: its own older header parser, the bump pattern, scope validation, and the commit, tag, push and publish decisions.

  The executor's git, file-system, semver and task-runner calls are recorded as a plan of steps.
- **Environment keys to a nested configuration tree** (`config.factory.ts`):
  - `transformKey` (for example `DB__HOST_NAME` becomes `db.hostName`);
  - `appendValue`, which walks and extends the tree and refuses to overwrite ("Key already exists");
  - `parse`.
- **Plugin definitions**:
  - `getFullDefinition`;
  - the plugin module's `$VAR` configuration resolution;
  - the split of loaded plugins into routed and directly imported modules.
- **The Hono dependency-injection store**:
  - the `@Inject()` metadata recording;
  - `DIStore.getInstance`, which memoises instances under per-class uuid tokens and fills their recorded properties by recursive requests.
- **`rewriteClass`**: a property merge into `dest` that never overwrites an existing (own or inherited) property.

## How it is organised

| file | module | models |
|---|---|---|
| wrappers.dfy | `Wrappers` | `Option`, `Result` |
| jstext.dfy | `JsText` | the JavaScript string operations the core uses (`split`, `join`, `trim`, ASCII `toLowerCase`/`toUpperCase`, `indexOf`) |
| seq_facts.dfy | `SeqFacts` | the concatenation step shared by the lemmas that split strings and lists |
| messaging.dfy | `Messaging` | JSON values, the channel as an operation log, awaited sequences that stop at the first refusal |
| name_resolver.dfy | `NameResolution` | `packages/rabbit/src/name.resolver.ts` |
| message_decorator.dfy | `MessageDecorators` | `packages/rabbit/src/lib/decorators/message.decorator.ts` |
| temporary_queue_registry.dfy | `TemporaryQueues` | `packages/rabbit/src/lib/temporary-queue.registry.ts` |
| message_publisher.dfy | `Publishers` | `packages/rabbit/src/lib/rabbit-message.publisher.ts` |
| message_consumer.dfy | `Consumers` | `packages/rabbit/src/lib/rabbit-message.consumer.ts` |
| rabbit_module.dfy | `Rabbit` | `packages/rabbit/src/lib/rabbit.module.ts` |
| commit_utils.dfy | `CommitUtils` | `packages/nx-package-builder/src/executors/ci/commit-utils.ts` |
| ci_executor.dfy | `CiExecutor` | `packages/nx-package-builder/src/executors/ci/executor.ts` |
| config_factory.dfy | `ConfigFactory` | `packages/config/src/config.factory.ts` |
| plugin_definition.dfy | `PluginDefinitions` | `packages/plugin-system-core/src/get-full-definition.ts` |
| plugin_loader.dfy | `PluginLoader` | `packages/plugin-system-loader/src/plugin.module.ts` |
| di_decorators.dfy | `DiDecorators` | `packages/hono-decorators/src/di/decorators.ts` |
| di_store.dfy | `DiStore` | `packages/hono-decorators/src/di/di-store.ts` |
| rewrite_class.dfy | `RewriteClass` | `packages/promise/src/lib/rewrite-class.ts` |

Stateful code is modelled by classes with `modifies` clauses:
- the channel, the registry, the consumer, the publisher and the RabbitMQ module;
- the decorator metadata stores;
- the configuration factory;
- the DI store;
- the objects `rewriteClass` works on.

Each method is proved equal to a specification function of the old state, or states the new
state outright. Lemmas then prove the promised properties of that function.

Pure code is modelled by functions and lemmas: name resolution, commit parsing, `transformKey`,
`getFullDefinition`, `resolveConfig`, `sift` and `fork`.

JSON parsing and serialisation are uninterpreted function values (`Codec`), and parsing may fail.
Uuid generation (`v4()`) is an infinite sequence of identifiers, `nat -> string`. Neither is computed.

### Behaviour of the code that the model makes explicit

- **No delivery is ever nacked** (`packages/rabbit/src/lib/rabbit-message.consumer.ts:24-26`, `:45-52`). The envelope acks a delivery only after the body parses and the callback resolves. When either fails it issues nothing, so the delivery stays unacknowledged (`Consumers.Envelope`, `Consumers.EnvelopesAckHandled`).
- **The delete sweep stops at the first refused deletion** (`packages/rabbit/src/lib/temporary-queue.registry.ts:15-16`). The sweep rejects there, and later queues get no delete request (`TemporaryQueues.SweepStopsAtFirstRefusal`).
- **A token is prefixed twice on the consumer side.** The token map already stores `prefix-name` (`packages/rabbit/src/lib/rabbit.module.ts:109-112`), and `getQueueName` prefixes the mapped value again (`packages/rabbit/src/name.resolver.ts:19`). The publisher uses the mapped value as it is and never prefixes literals (`packages/rabbit/src/lib/rabbit-message.publisher.ts:17-18`). So a token, or a literal queue name under a prefix, is sent to a different queue than the one consumed from (`Rabbit.TokenResolvesPrefixedTwice`, `Rabbit.PublisherAndConsumerDisagreeOnTokens`, `Publishers.LiteralSendMissesPrefixedConsumer`).
- **Some recorded options are never read.** Nothing reads the publish metadata that `PUBLISH_KEY` records (`packages/rabbit/src/lib/decorators/publish.decorator.ts:18-21`). Nothing reads the `queueToken` subscribe option either (`packages/rabbit/src/lib/decorators/subscribe.decorator.ts:6`): `registerSubscriber` reads only `exchange`, `routingKey` and `queue` (`packages/rabbit/src/lib/rabbit.module.ts:236-260`).
- **The `exchange` key's presence picks the path, not its value** (`packages/rabbit/src/lib/rabbit.module.ts:236`). A subscriber whose options carry the key with an `undefined` value still consumes through a temporary queue bound to `undefined` (`Rabbit.ExchangeKeyDecides`).
- **Failures during start-up.**
  - A refused declaration ends `onModuleInit`, which rejects, so no subscriber is registered after it (`packages/rabbit/src/lib/rabbit.module.ts:194-204`).
  - A failed subscriber registration is caught, and the other subscribers are still registered (`packages/rabbit/src/lib/rabbit.module.ts:261-263`, `Rabbit.SubscribersAreIndependent`).
- **The executor's own `parseCommit` requires a scope** (`packages/nx-package-builder/src/executors/ci/executor.ts:20`). Its subject expression requires a parenthesised scope, so a header such as `feat: x` makes it throw (`CiExecutor.UnscopedHeaderThrows`).
- **A merge commit without a body has no header, and reading it throws** (`packages/nx-package-builder/src/executors/ci/commit-utils.ts:14-19`, `CommitUtils.HeaderSource`).

## Model

| member | source | states |
|---|---|---|
| NameResolution.FindQueue | packages/rabbit/src/name.resolver.ts:23-25 | the `find` result is present exactly when some queue has the name, and it is the first such queue |
| NameResolution.NameResolver.ResolveConfigPrefix | packages/rabbit/src/name.resolver.ts:22-30 | with no (or an empty) prefix, or when the first queue of that name sets `ignorePrefix`, the name is unchanged; otherwise it is `prefix + "-" + name` |
| NameResolution.NameResolver.GetQueueName | packages/rabbit/src/name.resolver.ts:14-20 | a key of the token map resolves to the prefix-resolution of its mapped name, anything else to that of itself; with no map the `in` test throws a `TypeError` |
| NameResolution.NoPrefixIsIdentity | packages/rabbit/src/name.resolver.ts:27-29 | with no prefix or an empty prefix every name resolves to itself |
| NameResolution.AbsentQueuesMeansNoMatch | packages/rabbit/src/name.resolver.ts:23 | an absent `queues` list resolves like an empty one |
| NameResolution.FirstConfigDecides | packages/rabbit/src/name.resolver.ts:23-27 | only the first queue configured under a name decides whether the prefix is left off |
| MessageDecorators.BindingKeysDistinct | packages/rabbit/src/lib/decorators/message.decorator.ts:12-24 | the three decorators record three different injectable keys (`headers`, `contentRaw`, `content`) |
| MessageDecorators.Decorated | packages/rabbit/src/lib/decorators/message.decorator.ts:6-7 | the updated record maps the decorated index to the value, keeps every other index's entry and adds no other index; a missing record starts as `{}` |
| MessageDecorators.RedecorateOverwrites | packages/rabbit/src/lib/decorators/message.decorator.ts:7 | decorating the same index twice leaves only the second value |
| MessageDecorators.DecorationsCommute | packages/rabbit/src/lib/decorators/message.decorator.ts:6-8 | decorations of two different indices give the same record in either order |
| MessageDecorators.MetadataStore.DecorateParameter | packages/rabbit/src/lib/decorators/message.decorator.ts:4-10 | the record of the decorated (key, target, method) gains the entry and no other record changes |
| MessageDecorators.MetadataStore.MessageHeaders | packages/rabbit/src/lib/decorators/message.decorator.ts:12-14 | records `headers` for the parameter under the message key |
| MessageDecorators.MetadataStore.MessageRaw | packages/rabbit/src/lib/decorators/message.decorator.ts:16-19 | records `contentRaw` for the parameter under the message key |
| MessageDecorators.MetadataStore.Message | packages/rabbit/src/lib/decorators/message.decorator.ts:21-24 | records `content` for the parameter under the message key |
| TemporaryQueues.DeletePlan | packages/rabbit/src/lib/temporary-queue.registry.ts:15-16 | one `deleteQueue` per recorded name, in recording order |
| TemporaryQueues.TemporaryQueueRegistry.Register | packages/rabbit/src/lib/temporary-queue.registry.ts:10-12 | set semantics: a new name is appended, a name already there changes nothing; no channel operation is issued |
| TemporaryQueues.TemporaryQueueRegistry.OnModuleDestroy | packages/rabbit/src/lib/temporary-queue.registry.ts:14-18 | the deletions are issued one after another up to and including the first refused one; the sweep succeeds exactly when none is refused |
| TemporaryQueues.SweepDeletesEachOnce | packages/rabbit/src/lib/temporary-queue.registry.ts:14-18 | with no refusal, every recorded queue gets exactly one delete request and nothing else is issued |
| TemporaryQueues.CountDeletes | packages/rabbit/src/lib/temporary-queue.registry.ts:15-16 | the plan holds one delete for each recorded name and none for any other |
| TemporaryQueues.SweepStopsAtFirstRefusal | packages/rabbit/src/lib/temporary-queue.registry.ts:15-17 | when deletion `k` is the first refused, exactly the first `k + 1` queues get a delete request and no later one does |
| Publishers.SendTarget | packages/rabbit/src/lib/rabbit-message.publisher.ts:17-18 | a token targets its mapped name, anything else the literal, with no prefix |
| Publishers.RabbitMessagePublisher.Send | packages/rabbit/src/lib/rabbit-message.publisher.ts:12-25 | exactly one `sendToQueue` to the target with the serialised message and the options untouched; with no token map the `in` test throws and nothing is sent, and with a `null` channel the call on it throws |
| Publishers.RabbitMessagePublisher.Publish | packages/rabbit/src/lib/rabbit-message.publisher.ts:27-39 | exactly one `publish` with exchange, key and options untouched; with a `null` channel the call on it throws |
| Publishers.LiteralSendMissesPrefixedConsumer | packages/rabbit/src/lib/rabbit-message.publisher.ts:17-18 | under a prefix, a literal queue name is sent to a different queue than the consumer listens on |
| Publishers.TokenAgreesOnlyWithoutSecondPrefix | packages/rabbit/src/lib/rabbit-message.publisher.ts:17-18 | a token reaches the same queue from both sides exactly when resolving its mapped name again leaves it unchanged |
| Consumers.Envelope | packages/rabbit/src/lib/rabbit-message.consumer.ts:24-26 | for one delivery the envelope acks once exactly when the body parses and the callback resolves, issues nothing otherwise, and never nacks |
| Consumers.ExchangePlan | packages/rabbit/src/lib/rabbit-message.consumer.ts:40-52 | `assertQueue`, `bindQueue` with exchange and key unchanged, and `consume` with the options, all on the one drawn name |
| Consumers.RabbitMessageConsumer.ConsumeQueue | packages/rabbit/src/lib/rabbit-message.consumer.ts:15-30 | one `consume` on the resolved name with the options passed through; the consumer exists exactly when the broker accepts; a failed name lookup issues nothing |
| Consumers.RabbitMessageConsumer.ConsumeFromExchange | packages/rabbit/src/lib/rabbit-message.consumer.ts:32-53 | one id is drawn; the plan is awaited step by step, stopping at the first refusal; the name is recorded in the registry once `assertQueue` is accepted; the consumer exists exactly when every step is accepted |
| Consumers.RabbitMessageConsumer.HandleDelivery | packages/rabbit/src/lib/rabbit-message.consumer.ts:24-26 | running a registered callback on a delivery issues exactly what the envelope prescribes |
| Consumers.ExchangeOpsShareOneName | packages/rabbit/src/lib/rabbit-message.consumer.ts:38-52 | every operation on a temporary queue names the one queue drawn for it |
| Consumers.EnvelopesAckHandled | packages/rabbit/src/lib/rabbit-message.consumer.ts:24-26 | over any run of deliveries, the acks are exactly those of the handled deliveries, each once, in order, and nothing but acks is issued |
| Rabbit.TokenMapEntries | packages/rabbit/src/lib/rabbit.module.ts:104-115 | the token map's keys are exactly the truthy tokens, each mapped to the prefix-resolution of its last holder's name |
| Rabbit.ForRootQueueMap | packages/rabbit/src/lib/rabbit.module.ts:104-115 | `forRoot` always provides a map (an empty collection when no queues are configured), keyed by the truthy tokens |
| Rabbit.ForRootAsyncQueueMap | packages/rabbit/src/lib/rabbit.module.ts:159-172 | `forRootAsync` provides no map at all exactly when no queues are configured |
| Rabbit.TokenResolvesPrefixedTwice | packages/rabbit/src/lib/rabbit.module.ts:109-112 | on the consumer side a token resolves to `prefix-prefix-name` |
| Rabbit.PublisherAndConsumerDisagreeOnTokens | packages/rabbit/src/lib/rabbit.module.ts:109-112 | the publisher sends a token's messages to `prefix-name` and the consumer listens on a different name |
| Rabbit.OpenChannel | packages/rabbit/src/lib/rabbit.module.ts:89-98 | no connection gives no channel; otherwise a fresh channel whose only operation is one `prefetch(1, true)`, or a rejection when that is refused |
| Rabbit.MaxIndex | packages/rabbit/src/lib/rabbit.module.ts:286-289 | the largest bound parameter index, which bounds the argument array |
| Rabbit.ArgumentList | packages/rabbit/src/lib/rabbit.module.ts:286-289 | the reduction puts at every bound index the injectable value its binding names, holes elsewhere, and ends at the last bound index |
| Rabbit.ResolveListenerArguments | packages/rabbit/src/lib/rabbit.module.ts:266-290 | `ParseFailedError` exactly when the body does not parse and some parameter wants `content`; `TypeError` when it does not parse and there is no metadata; `undefined` when there is no metadata; otherwise exactly `ArgumentList` of the metadata over the delivery's injectable values |
| Rabbit.ParseFailureWithoutContentIsSilent | packages/rabbit/src/lib/rabbit.module.ts:277-282 | a failed parse with no `content` binding still binds the arguments, the raw body text among them |
| Rabbit.SubscribedMethods | packages/rabbit/src/lib/rabbit.module.ts:209-221 | exactly the methods other than `constructor` that carry subscribe options are registered |
| Rabbit.Discovered | packages/rabbit/src/lib/rabbit.module.ts:206-223 | the subscribers of all controllers are exactly the subscribing methods of some controller |
| Rabbit.EnvelopeNeverSeesParseFailure | packages/rabbit/src/lib/rabbit.module.ts:240-259 | behind the envelope binding cannot fail to parse, and a delivery is acked exactly when the handler has metadata and resolves on the bound arguments |
| Rabbit.SubscribersAreIndependent | packages/rabbit/src/lib/rabbit.module.ts:226-264 | registering a list of subscribers issues each one's own operations in turn, whatever the others do, and each exchange subscriber draws one id |
| Rabbit.EverySubscriberIsTried | packages/rabbit/src/lib/rabbit.module.ts:235-263 | with a token map present every subscriber issues at least one operation |
| Rabbit.ExchangeKeyDecides | packages/rabbit/src/lib/rabbit.module.ts:236-260 | with the `exchange` key present, even as `undefined`, a subscriber draws one id and awaits assert, bind to that value, and consume; without it, it issues one `consume` on its `queue` option and draws nothing |
| Rabbit.ExchangeOps | packages/rabbit/src/lib/rabbit.module.ts:195-197 | one `assertExchange` per configured exchange, in order |
| Rabbit.QueueOps | packages/rabbit/src/lib/rabbit.module.ts:198-203 | one `assertQueue` per configured queue under its prefix-resolved name with its options, in order |
| Rabbit.TopologyOrder | packages/rabbit/src/lib/rabbit.module.ts:194-204 | nothing is declared without `assert`; with it every exchange in order, then every queue in order |
| Rabbit.RabbitModule.RegisterSubscriber | packages/rabbit/src/lib/rabbit.module.ts:226-264 | the new state is that of one registration step: the temporary-queue path when the `exchange` key is present (its value passed on even when `undefined`), the `queue` path otherwise, with any failure caught |
| Rabbit.RabbitModule.AssertExchanges | packages/rabbit/src/lib/rabbit.module.ts:195-197 | the exchange declarations are awaited in order up to the first refusal |
| Rabbit.RabbitModule.AssertQueues | packages/rabbit/src/lib/rabbit.module.ts:198-203 | the queue declarations are awaited in order up to the first refusal |
| Rabbit.RabbitModule.AssertTopology | packages/rabbit/src/lib/rabbit.module.ts:194-204 | the declarations of the topology plan are awaited in order up to the first refusal |
| Rabbit.RabbitModule.RegisterAll | packages/rabbit/src/lib/rabbit.module.ts:208-223 | the discovered subscribers are registered one after another |
| Rabbit.RabbitModule.OnModuleInit | packages/rabbit/src/lib/rabbit.module.ts:186-224 | with no channel nothing changes; otherwise the declarations are awaited up to the first refusal, and only when none is refused is every discovered subscriber registered; start-up rejects exactly when a declaration is refused, with that declaration |
| Messaging.UpToIsPrefixUntilRefusal | packages/rabbit/src/lib/temporary-queue.registry.ts:15-16 | awaiting a sequence issues a prefix of it whose steps are all accepted but the last; it stops short only at a refusal and is the whole sequence exactly when nothing is refused |
| Messaging.UpToConcat | packages/rabbit/src/lib/rabbit.module.ts:194-204 | awaiting two sequences in turn starts the second only if the first went through |
| Messaging.UpToStopsAt | packages/rabbit/src/lib/temporary-queue.registry.ts:15-17 | awaiting a sequence whose first refusal is step `k` issues exactly its first `k + 1` steps and does not go through |
| CommitUtils.CommitLines | packages/nx-package-builder/src/executors/ci/commit-utils.ts:5-13 | the lines of the full message are the message's lines followed by a non-empty body's lines |
| CommitUtils.TypeEnd | packages/nx-package-builder/src/executors/ci/commit-utils.ts:27 | the type runs up to the first `(` or `:` |
| CommitUtils.ConventionalHeaderMatches | packages/nx-package-builder/src/executors/ci/commit-utils.ts:19 | the header scan accepts exactly the headers that `^[^(:]+(?:\([^)]+\))?:` matches |
| CommitUtils.ScopeClose | packages/nx-package-builder/src/executors/ci/commit-utils.ts:26 | the greedy scope capture ends at the last `)` it can end at |
| CommitUtils.ScopeListPieces | packages/nx-package-builder/src/executors/ci/commit-utils.ts:26-31 | a scope list exists exactly when the scope expression can close its capture. It is then the trimmed pieces of comma-free texts that, joined with commas, give back exactly the captured text between `(` and the closing `)` |
| CommitUtils.GroupColon | packages/nx-package-builder/src/executors/ci/commit-utils.ts:28 | the greedy group before the subject colon ends at the last place it can |
| CommitUtils.SubjectColon | packages/nx-package-builder/src/executors/ci/commit-utils.ts:28 | when some `(...)` group can be followed by `:`, the subject starts after the colon that follows the last such group. Otherwise it starts after the colon right after the type. It fails exactly when neither colon exists |
| CommitUtils.SubjectAfterIsRestOfLine | packages/nx-package-builder/src/executors/ci/commit-utils.ts:28 | the subject is the slice of the header that starts after the colon and all the white space following it, and ends at the first line break or at the end |
| CommitUtils.ParseCommitCases | packages/nx-package-builder/src/executors/ci/commit-utils.ts:11-37 | throws exactly when there is no header or the subject expression fails; `{}` exactly for an invalid header; otherwise type, scopes, subject, merge line and description are read from the header and the lines after it |
| CommitUtils.BreakingFromHeaderOn | packages/nx-package-builder/src/executors/ci/commit-utils.ts:35 | `breaking` is set exactly when the header or a later line mentions `BREAKING CHANGE` |
| CommitUtils.TypeIsPlain | packages/nx-package-builder/src/executors/ci/commit-utils.ts:27 | a parsed type is non-empty and holds neither `(` nor `:` |
| CommitUtils.ConventionalHeaderHasSubject | packages/nx-package-builder/src/executors/ci/commit-utils.ts:19-28 | a valid one-line header always has a subject, so the subject expression never fails on it |
| CommitUtils.HeaderSource | packages/nx-package-builder/src/executors/ci/commit-utils.ts:13-17 | a plain first line is the header; after a merge line the body's first line is; a bodiless merge commit has no header and throws |
| CommitUtils.GreedyScopeCapture | packages/nx-package-builder/src/executors/ci/commit-utils.ts:26-31 | on `feat(a): fix (b)` the scope capture runs to the last `)` |
| CommitUtils.MaxOf | packages/nx-package-builder/src/executors/ci/commit-utils.ts:45-52 | the larger of two bumps under patch < minor < major |
| CommitUtils.MaxBumpIsMaximum | packages/nx-package-builder/src/executors/ci/commit-utils.ts:38-55 | the bump is an upper bound of every commit's bump and is attained by some commit, or is patch |
| CommitUtils.MaxBumpIgnoresOrder | packages/nx-package-builder/src/executors/ci/commit-utils.ts:38-55 | the bump depends on the multiset of commits, not their order |
| CommitUtils.ParseEach | packages/nx-package-builder/src/executors/ci/commit-utils.ts:42 | every commit is parsed on its own |
| CommitUtils.CollectIsPointwise | packages/nx-package-builder/src/executors/ci/commit-utils.ts:42 | the mapped list exists exactly when every commit parses, and holds each one's result at its index |
| CommitUtils.FirstThrowWins | packages/nx-package-builder/src/executors/ci/commit-utils.ts:42 | when some commit throws, the map throws what the first of them throws |
| CommitUtils.GetVersionBump | packages/nx-package-builder/src/executors/ci/commit-utils.ts:38-55 | a parse throw ends the call; otherwise the result is the maximum bump of the parsed commits |
| CommitUtils.LargestBump | packages/nx-package-builder/src/executors/ci/commit-utils.ts:43-54 | the loop with its early returns computes the maximum bump |
| CiExecutor.LegacyParseOutcome | packages/nx-package-builder/src/executors/ci/executor.ts:11-29 | the older parser throws with no header, or when no `(...)` group is directly followed by `:`, and succeeds otherwise |
| CiExecutor.LegacyParseIsReadHeader | packages/nx-package-builder/src/executors/ci/executor.ts:17-28 | when the older parser succeeds, it has skipped a leading merge line, kept that line as `merge`, and read the header at the line after it (or at the first line when there is no merge line) |
| CiExecutor.LegacyHeaderFields | packages/nx-package-builder/src/executors/ci/executor.ts:17-28 | once the header is found, the older parser reads the type up to the first `(` or `:`, the scope list, and the subject after the group's colon; it keeps the merge line and the lines after the header, and the scope list is always present |
| CiExecutor.LegacyHasScopes | packages/nx-package-builder/src/executors/ci/executor.ts:18-23 | whatever the older parser returns carries a scope list |
| CiExecutor.UnscopedHeaderThrows | packages/nx-package-builder/src/executors/ci/executor.ts:20 | a header without a parenthesised scope makes the older parser throw |
| CiExecutor.LegacyAgreesOnValidHeaders | packages/nx-package-builder/src/executors/ci/executor.ts:11-29 | where the older parser succeeds on a header the commit utilities accept, both give the same record |
| CiExecutor.MergedPattern | packages/nx-package-builder/src/executors/ci/executor.ts:31-66 | the default `{feat: minor}` overridden entry-wise by the user's pattern |
| CiExecutor.NoOptionsMeansEverything | packages/nx-package-builder/src/executors/ci/executor.ts:54-63 | the destructuring defaults: commit, tag, push and publish on, delimiter `\|\|`, script `publish` |
| CiExecutor.ChangeSelection | packages/nx-package-builder/src/executors/ci/executor.ts:89-91 | major when breaking, else the user's entry for the type, else minor for `feat`, else patch |
| CiExecutor.FirstMissing | packages/nx-package-builder/src/executors/ci/executor.ts:84-87 | the first scope that is not a project, or none exactly when all are |
| CiExecutor.VersionChangesLastWins | packages/nx-package-builder/src/executors/ci/executor.ts:95-102 | each scope maps to the version its last bump produced |
| CiExecutor.VersionChangesKeys | packages/nx-package-builder/src/executors/ci/executor.ts:93-102 | `versionChanges` has an entry exactly for the scopes |
| CiExecutor.CiCommitNamesItsScopes | packages/nx-package-builder/src/executors/ci/executor.ts:113-115 | the executor's own commit message, read back as a header, gives exactly the scopes it bumped |
| CiExecutor.FailsBeforeAnyStep | packages/nx-package-builder/src/executors/ci/executor.ts:74-95 | the scope list is never missing once the header parses, and every failure happens before any step |
| CiExecutor.ScopeValidation | packages/nx-package-builder/src/executors/ci/executor.ts:84-95 | a run succeeds exactly when every scope is a project; otherwise it names the first missing scope and takes no step |
| CiExecutor.BumpsComeFirst | packages/nx-package-builder/src/executors/ci/executor.ts:95-102 | a successful run starts by bumping every scope in order by the one selected change, and bumps nothing else |
| CiExecutor.PlanTailSteps | packages/nx-package-builder/src/executors/ci/executor.ts:104-151 | after the bumps no further bump is issued, and commit, tag and push steps appear only when `commit` is set |
| CiExecutor.TagAndPushNeedCommit | packages/nx-package-builder/src/executors/ci/executor.ts:111-138 | commit, tags and push happen only when the executor commits |
| CiExecutor.TagsNameLastVersion | packages/nx-package-builder/src/executors/ci/executor.ts:121-130 | with commit and tag on, every scope is tagged `scope + delimiter + version` with its last produced version |
| CiExecutor.CheckScopes | packages/nx-package-builder/src/executors/ci/executor.ts:84-87 | the validation loop finds the first scope that is not a project |
| CiExecutor.BumpScopes | packages/nx-package-builder/src/executors/ci/executor.ts:95-102 | the bump loop issues one bump per scope and records the produced versions |
| CiExecutor.TagScopes | packages/nx-package-builder/src/executors/ci/executor.ts:125-129 | the tag loop issues one tag per scope, in order |
| CiExecutor.PublishScopes | packages/nx-package-builder/src/executors/ci/executor.ts:139-151 | the publish loop runs the publish target once per scope, in order |
| CiExecutor.Execute | packages/nx-package-builder/src/executors/ci/executor.ts:53-155 | the executor body computes the run its specification function describes |
| CiExecutor.RunParsed | packages/nx-package-builder/src/executors/ci/executor.ts:82-154 | validation, the change and each group of steps as the settings allow compute the run of the specification function on the parsed header |
| ConfigFactory.TransformKeyLetter | packages/config/src/config.factory.ts:18-23 | a character other than `_` is lower-cased and the rest normalised on its own |
| ConfigFactory.TransformKeyDot | packages/config/src/config.factory.ts:21 | `__` becomes `.` |
| ConfigFactory.TransformKeyCamel | packages/config/src/config.factory.ts:22 | `_` before a word character disappears and upper-cases that character |
| ConfigFactory.TransformKeyConcat | packages/config/src/config.factory.ts:18-23 | normalisation is compositional at every point not preceded by `_` |
| ConfigFactory.TransformKeyHasNoDoubleUnderscore | packages/config/src/config.factory.ts:18-23 | a normalised key never holds `__` |
| ConfigFactory.NullIsSkipped | packages/config/src/config.factory.ts:26 | a `null` value changes nothing |
| ConfigFactory.InsertPlacesValue | packages/config/src/config.factory.ts:43 | after an append that goes through, the value sits at its path |
| ConfigFactory.InsertKeepsPresent | packages/config/src/config.factory.ts:29-43 | whatever the outcome, everything present stays present and every leaf keeps its value |
| ConfigFactory.DefinedLeafThrows | packages/config/src/config.factory.ts:39-41 | a path that already holds a value throws and nothing changes |
| ConfigFactory.BlockedPathThrows | packages/config/src/config.factory.ts:31-35 | a non-object met on the way down throws and nothing changes |
| ConfigFactory.MissingPathIsCreated | packages/config/src/config.factory.ts:29-43 | on a new path every missing object is created as `{}` and the value is written at the end |
| ConfigFactory.InheritedNameThrows | packages/config/src/config.factory.ts:30-35 | an inherited method name on the path throws, leaving behind the objects already created |
| ConfigFactory.ThrowStopsParse | packages/config/src/config.factory.ts:50-54 | once an append throws, later entries are not looked at |
| ConfigFactory.ParsedKeepsPresent | packages/config/src/config.factory.ts:50-54 | what an earlier entry stored survives the rest of a successful parse |
| ConfigFactory.ParseStoresEveryEntry | packages/config/src/config.factory.ts:50-54 | a successful parse holds every non-null entry at the path of its normalised key |
| ConfigFactory.CollidingKeysThrow | packages/config/src/config.factory.ts:50-54 | two keys that normalise to the same path (values not null) make the parse throw |
| ConfigFactory.Factory.AppendValue | packages/config/src/config.factory.ts:25-44 | the walk and write-back compute the new tree and outcome of the append function |
| ConfigFactory.Factory.Parse | packages/config/src/config.factory.ts:50-54 | the loop computes the tree and outcome of the parse function |
| PluginDefinitions.GetFullDefinition | packages/plugin-system-core/src/get-full-definition.ts:3-11 | the name is always the input's; an object is returned unchanged; a string gets no other field |
| PluginDefinitions.GetFullDefinitionIdempotent | packages/plugin-system-core/src/get-full-definition.ts:6-10 | normalising twice is normalising once |
| PluginDefinitions.GetFullDefinitionInjective | packages/plugin-system-core/src/get-full-definition.ts:6-10 | two definitions normalise alike exactly when they are equal, or a bare name and its bare object form |
| PluginLoader.ResolveConfigEntries | packages/plugin-system-loader/src/plugin.module.ts:20-34 | a missing configuration gives `{}`; otherwise every key is kept, a `$NAME` reference becomes the variable it names (maybe undefined), and every other value is kept |
| PluginLoader.NoReferencesResolveToThemselves | packages/plugin-system-loader/src/plugin.module.ts:22-33 | a configuration without references resolves to itself whatever the environment |
| PluginLoader.ResolutionReadsOnlyNamedVariables | packages/plugin-system-loader/src/plugin.module.ts:26-29 | only the variables the configuration names matter |
| PluginLoader.SiftConcat | packages/plugin-system-loader/src/plugin.module.ts:83-89 | sifting keeps order |
| PluginLoader.SiftMembers | packages/plugin-system-loader/src/plugin.module.ts:83-89 | the sift holds exactly the values of the non-null results |
| PluginLoader.ForkSides | packages/plugin-system-loader/src/plugin.module.ts:91-94 | routable modules go left, the others right, none lost or repeated |
| PluginLoader.PluginsLandOnOneSide | packages/plugin-system-loader/src/plugin.module.ts:91-105 | every loaded plugin is routed under its name when it has one, imported directly otherwise |
| DiDecorators.SetEntryLookup | packages/hono-decorators/src/di/decorators.ts:9 | after recording, the property reads the new key and every other property what it did |
| DiDecorators.SetEntryNames | packages/hono-decorators/src/di/decorators.ts:9 | recording adds the property's name and keeps the names distinct |
| DiDecorators.SetEntryOverwrites | packages/hono-decorators/src/di/decorators.ts:9 | recording the same property twice keeps only the second key |
| DiDecorators.ResolvedKey | packages/hono-decorators/src/di/decorators.ts:5-7 | the explicit key, else the design type; nothing when that is absent, falsy or `Object` |
| DiDecorators.ExplicitKeyWins | packages/hono-decorators/src/di/decorators.ts:5 | an explicit key wins over the design type |
| DiDecorators.InjectMetadata.Inject | packages/hono-decorators/src/di/decorators.ts:4-11 | with no key nothing changes; otherwise the owner class's table gets the entry and no other class's table changes |
| DiStore.WithToken | packages/hono-decorators/src/di/di-store.ts:15-16 | a requested class always ends up with a token |
| DiStore.GetExtends | packages/hono-decorators/src/di/di-store.ts:12-31 | a request loses nothing: cached instances and tokens stay |
| DiStore.TokenAttachedOnce | packages/hono-decorators/src/di/di-store.ts:15-17 | a class's token is attached once: an existing one is kept, a new one is the next uuid |
| DiStore.GetCaches | packages/hono-decorators/src/di/di-store.ts:22-29 | a successful class request yields an instance cached under the class's token |
| DiStore.RepeatedRequestIsCached | packages/hono-decorators/src/di/di-store.ts:22-23 | asking again returns the same instance and changes nothing |
| DiStore.UncachedTokenIsUndefined | packages/hono-decorators/src/di/di-store.ts:18-31 | a non-class token with nothing cached gives `undefined` and creates nothing |
| DiStore.InjectFills | packages/hono-decorators/src/di/di-store.ts:33-41 | injection sets exactly the recorded properties, each to what a request for its key gives, and leaves others alone |
| DiStore.NewInstanceIsInjected | packages/hono-decorators/src/di/di-store.ts:25-29 | a first-time class is built, given exactly its recorded properties (none without metadata), then cached |
| DiStore.AcyclicRequestsSucceed | packages/hono-decorators/src/di/di-store.ts:25-29 | with an acyclic dependency graph every request completes once the stack is deeper than the class's rank |
| DiStore.AcyclicInjectSucceeds | packages/hono-decorators/src/di/di-store.ts:37-40 | with an acyclic dependency graph, injecting properties whose classes all rank below the stack depth completes |
| DiStore.SelfDependencyOverflows | packages/hono-decorators/src/di/di-store.ts:26-28 | a class whose first recorded property has its own type overflows the stack however deep it is |
| DiStore.DIStore.GetInstance | packages/hono-decorators/src/di/di-store.ts:12-31 | the method computes the new state and result of the request function |
| DiStore.DIStore.InjectProperties | packages/hono-decorators/src/di/di-store.ts:33-41 | the loop computes the new state and instance of the injection function |
| RewriteClass.RewrittenProperties | packages/promise/src/lib/rewrite-class.ts:5-7 | missing properties are copied with the source's value, existing ones keep theirs, nothing else appears |
| RewriteClass.RewriteIdempotent | packages/promise/src/lib/rewrite-class.ts:5-8 | a second merge from the same source changes nothing and copies no name |
| RewriteClass.RewriteSelf | packages/promise/src/lib/rewrite-class.ts:5-7 | merging an object into itself changes nothing |
| RewriteClass.CopiedIsRewritten | packages/promise/src/lib/rewrite-class.ts:5-7 | the loop over the source's names computes the declarative merge and adds the missing names in order |
| RewriteClass.CopiedKeepsListed | packages/promise/src/lib/rewrite-class.ts:6 | an object that lists each own property once still does after the merge |
| RewriteClass.Rewrite | packages/promise/src/lib/rewrite-class.ts:1-9 | `dest` is returned, gains exactly the source's missing properties and their names, the source is unchanged, and well-formedness is kept |
| JsText.Split | packages/nx-package-builder/src/executors/ci/commit-utils.ts:13 | `split` gives at least one piece and no piece holds the separator |
| JsText.JoinSplit | packages/nx-package-builder/src/executors/ci/commit-utils.ts:13 | joining the pieces of a split gives the string back |
| JsText.SplitJoin | packages/nx-package-builder/src/executors/ci/commit-utils.ts:13 | splitting a join of separator-free pieces gives the pieces back |
| JsText.Trim | packages/nx-package-builder/src/executors/ci/commit-utils.ts:31 | the trimmed string is a slice of the input with only white space removed before and after it, and it has no white space at either end |

## Left out

- Connecting to the broker, connection error events and logging: foreign I/O. A failed connect is the input `None` of `Rabbit.OpenChannel`.
  - The `null` channel that then results is the publisher's channel `None`, on which `send` and `publish` throw. The consumer is given the same value, but its methods are reached only after `onModuleInit` has checked for it.
- The broker's own semantics: redelivery, prefetch enforcement and delivery order. The channel is an operation log with a fixed set of refused operations.
  - Acknowledgements and publishing are synchronous calls in the client library and are never refused.
  - The consumer callback of a registered consumer is run by `HandleDelivery`. Deliveries themselves are not scheduled.
- `Promise.all` in `onModuleInit` is modelled as registering the subscribers one after another. Their channel operations could interleave in the source; in the model they do not.
- NestJS dependency injection, module wiring, `DiscoveryService`, `Reflector` and `Reflect.getMetadata`. Discovered controllers, their methods' subscribe options and their parameter metadata are plain input tables.
- The subscribe and publish decorators: their shapes are used as data only, and nothing reads the publish metadata.
- `JSON.parse`, `JSON.stringify` and `v4()` are uninterpreted inputs.
- Inherited (prototype) properties of the token map and of the bump pattern; only own keys are modelled:
  - JavaScript's `in` on the token map would also find `toString` and the like;
  - `bumpPattern[type]` would read an inherited method for a type such as `constructor`;
  - with `queues` unset, `forRoot` falls back to an empty array, for which `in` also finds `length`.
- Name resolution of a `symbol` token: tokens are strings.
- The executor's git, file-system, semver and nx task-runner calls.
  - They are steps of a plan and are assumed to succeed.
  - Each `bumpVersion` result is an input: bump number `i` produces `versions(i)`.
- Joi validation (`validate`) and dotenv loading of the configuration: foreign libraries. `parse` receives the validated environment as an ordered list of entries.
- Non-ASCII case mapping in `toLowerCase` and `toUpperCase`: only ASCII letters change case.
- Array values in the configuration tree: validated values are null, booleans, numbers, strings or objects.
- ConfigFactory.Factory.AppendValue: requires a key without `__`. The method then cannot reach JavaScript's prototype accessors such as `__proto__`, which the model does not represent. Every key `parse` passes satisfies this (`TransformKeyHasNoDoubleUnderscore`). The body walks the tree as values and rebuilds it.
  - The source mutates nested objects in place. The model does not capture aliasing between nested objects, which `appendValue` never creates.
- `getModuleWithMetadataFromPlugin`, `getPluginList` and the dynamic `import(...)`: file and module-loading I/O. `RouterModule.register` is represented by the list of routes it is given.
- The DI store's token is stored per store. In the source it is metadata on the class itself, shared by every store.
- Class inheritance is not modelled:
  - `Reflect.hasMetadata` walks the prototype chain, so a subclass would inherit its parent's token and inject metadata.
  - `Reflect.getMetadata` walks it too, and both decorator stores then change the record it returns in place (packages/hono-decorators/src/di/decorators.ts:7-8, packages/rabbit/src/lib/decorators/message.decorator.ts:6-7). A subclass's `@Inject` property, or a parameter decorator on a method that overrides one already decorated, therefore also adds its entry to the parent's record. In the model each (owner, method) has a record of its own.
- DiStore.DIStore.GetInstance: stack depth is a `fuel` parameter, and running out of it is `StackOverflow`. Only the case where a class's first recorded property has its own type is proved to overflow; general dependency cycles are not characterised beyond `AcyclicRequestsSucceed`.
- `Object.defineProperty` attributes (non-writable, non-enumerable) of injected properties: a property is a name and a value.
- `isConstructor` is taken at face value: a class key is a constructor, any other key is not.
- The `rewriteClass` value model:
  - property values are opaque, and getters and setters are not modelled;
  - `JsObject` does not represent non-enumerable or symbol-keyed properties;
  - the names `dest` inherits are a fixed set.
- RewriteClass.Rewrite: requires that the source lists each own property once, which `Object.getOwnPropertyNames` guarantees.
- Rabbit.RabbitModule.RegisterSubscriber: an absent `queue` option is modelled as the string `"undefined"`. That is what the resolver's `in` test and the prefixing template make of it. With no prefix in force, however, the source hands the value `undefined` itself to `consume`, which the model does not distinguish from a queue named `undefined`.
- DiDecorators.InjectMetadata.Inject: resolves the key afresh on every use. In the source, `typeOrToken ??= …` (packages/hono-decorators/src/di/decorators.ts:5) assigns the variable the decorator's closure captures. One `Inject()` result applied to two properties therefore records the first property's design type for both.
