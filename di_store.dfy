/**
 * The dependency-injection store: one instance per class, created on first request, with its
 * `@Inject()` properties filled by recursive requests before it is cached. A class is known to
 * the cache by a token, a fresh uuid attached to the class the first time it is requested.
 */
module DiStore {
  import opened Wrappers
  import opened DiDecorators

  /** An object made by the store: its class, which `new` produced it, and its injected properties (`None` is `undefined`). */
  datatype Instance = Instance(cls: ClassId, serial: nat, props: map<string, Option<Instance>>)

  /** The state a request reads and changes: the cache, the classes' tokens, and how many uuids and objects were made. */
  datatype Store = Store(instances: map<string, Instance>, classTokens: map<ClassId, string>, uuids: nat, serials: nat)

  /** A request nests deeper than the call stack allows (JavaScript's `RangeError`). */
  datatype DIError = StackOverflow

  /** The uuids `v4()` returns, in order. */
  type Uuids = nat -> string

  /** The token of a class: its existing one, or the next uuid, attached now. */
  function WithToken(st: Store, c: ClassId, uuid: Uuids): (r: Store)
    ensures c in r.classTokens
  {
    if c in st.classTokens then st
    else st.(classTokens := st.classTokens[c := uuid(st.uuids)], uuids := st.uuids + 1)
  }

  /**
   * `getInstance(clsOrToken)`, within `fuel` levels of nested construction: the new state and
   * the instance (`None` for a token nothing is cached under).
   */
  function Get(table: InjectTable, uuid: Uuids, st: Store, k: Key, fuel: nat): (Store, Result<Option<Instance>, DIError>)
    decreases fuel, 1, 0
  {
    match k
    case Token(t) => (st, Success(if t in st.instances then Some(st.instances[t]) else None))
    case Cls(c) =>
      var st1 := WithToken(st, c, uuid);
      var token := st1.classTokens[c];
      if token in st1.instances then (st1, Success(Some(st1.instances[token])))
      else if fuel == 0 then (st1, Failure(StackOverflow))
      else
        var injected := Inject(table, uuid, st1.(serials := st1.serials + 1),
                               Instance(c, st1.serials, map[]), EntriesOf(table, c), fuel - 1);
        if injected.1.Failure? then (injected.0, Failure(injected.1.error))
        else (injected.0.(instances := injected.0.instances[token := injected.1.value]), Success(Some(injected.1.value)))
  }

  /** `injectProperties`: each recorded property, in order, set to what a request for its key gives. */
  function Inject(table: InjectTable, uuid: Uuids, st: Store, instance: Instance, entries: Entries, fuel: nat)
    : (Store, Result<Instance, DIError>)
    decreases fuel, 2, |entries|
  {
    if entries == [] then (st, Success(instance))
    else
      var got := Get(table, uuid, st, entries[0].1, fuel);
      if got.1.Failure? then (got.0, Failure(got.1.error))
      else Inject(table, uuid, got.0, instance.(props := instance.props[entries[0].0 := got.1.value]), entries[1..], fuel)
  }

  /** Nothing recorded is lost: cached instances and attached tokens stay, and the counters only grow. */
  predicate Extends(st: Store, st': Store) {
    && (forall t :: t in st.instances ==> t in st'.instances && st'.instances[t] == st.instances[t])
    && (forall c :: c in st.classTokens ==> c in st'.classTokens && st'.classTokens[c] == st.classTokens[c])
    && st.uuids <= st'.uuids && st.serials <= st'.serials
  }

  lemma {:induction false} GetExtends(table: InjectTable, uuid: Uuids, st: Store, k: Key, fuel: nat)
    ensures Extends(st, Get(table, uuid, st, k, fuel).0)
    decreases fuel, 1, 0
  {
    if k.Cls? {
      var st1 := WithToken(st, k.c, uuid);
      var token := st1.classTokens[k.c];
      if token !in st1.instances && fuel > 0 {
        InjectExtends(table, uuid, st1.(serials := st1.serials + 1),
                      Instance(k.c, st1.serials, map[]), EntriesOf(table, k.c), fuel - 1);
      }
    }
  }

  lemma {:induction false} InjectExtends(table: InjectTable, uuid: Uuids, st: Store, instance: Instance, entries: Entries, fuel: nat)
    ensures Extends(st, Inject(table, uuid, st, instance, entries, fuel).0)
    decreases fuel, 2, |entries|
  {
    if entries != [] {
      var got := Get(table, uuid, st, entries[0].1, fuel);
      GetExtends(table, uuid, st, entries[0].1, fuel);
      if got.1.Success? {
        InjectExtends(table, uuid, got.0, instance.(props := instance.props[entries[0].0 := got.1.value]), entries[1..], fuel);
      }
    }
  }

  /** The instance handed out for a class is the one cached under the class's token. */
  predicate CachedAs(st: Store, c: ClassId, instance: Instance) {
    c in st.classTokens && st.classTokens[c] in st.instances && st.instances[st.classTokens[c]] == instance
  }

  /** A class gets its token once: an existing token is kept, a new one is the next uuid. */
  lemma TokenAttachedOnce(table: InjectTable, uuid: Uuids, st: Store, c: ClassId, fuel: nat)
    ensures var after := Get(table, uuid, st, Cls(c), fuel).0;
            && c in after.classTokens
            && after.classTokens[c] == (if c in st.classTokens then st.classTokens[c] else uuid(st.uuids))
  {
    var st1 := WithToken(st, c, uuid);
    var token := st1.classTokens[c];
    if token !in st1.instances && fuel > 0 {
      InjectExtends(table, uuid, st1.(serials := st1.serials + 1),
                    Instance(c, st1.serials, map[]), EntriesOf(table, c), fuel - 1);
    }
  }

  /** A successful request for a class yields an instance, and that instance is now cached under the class's token. */
  lemma GetCaches(table: InjectTable, uuid: Uuids, st: Store, c: ClassId, fuel: nat)
    ensures var (after, r) := Get(table, uuid, st, Cls(c), fuel);
            r.Success? ==> r.value.Some? && CachedAs(after, c, r.value.value)
  {
    var st1 := WithToken(st, c, uuid);
    var token := st1.classTokens[c];
    if token !in st1.instances && fuel > 0 {
      InjectExtends(table, uuid, st1.(serials := st1.serials + 1),
                    Instance(c, st1.serials, map[]), EntriesOf(table, c), fuel - 1);
    }
  }

  /** Asking again for a class returns the same instance and changes nothing, however deep the call. */
  lemma RepeatedRequestIsCached(table: InjectTable, uuid: Uuids, st: Store, c: ClassId, fuel: nat, fuel': nat)
    ensures var (after, r) := Get(table, uuid, st, Cls(c), fuel);
            r.Success? ==> Get(table, uuid, after, Cls(c), fuel') == (after, r)
  {
    GetCaches(table, uuid, st, c, fuel);
  }

  /** A token that is not a class and has nothing cached under it gives `undefined` and creates nothing. */
  lemma UncachedTokenIsUndefined(table: InjectTable, uuid: Uuids, st: Store, t: string, fuel: nat)
    requires t !in st.instances
    ensures Get(table, uuid, st, Token(t), fuel) == (st, Success(None))
  {
  }

  /** An injected property holds what the store hands out for its key at the end. */
  predicate Filled(st: Store, instance: Instance, entry: (string, Key)) {
    entry.0 in instance.props
    && match entry.1
       case Cls(c) => instance.props[entry.0].Some? && CachedAs(st, c, instance.props[entry.0].value)
       case Token(t) => instance.props[entry.0].Some? ==> t in st.instances && instance.props[entry.0] == Some(st.instances[t])
  }

  /**
   * Injection sets exactly the recorded properties and leaves the others alone; a class-typed one
   * holds the store's instance of that class, a token-typed one the instance cached under it, if any.
   */
  lemma {:induction false} InjectFills(table: InjectTable, uuid: Uuids, st: Store, instance: Instance, entries: Entries, fuel: nat)
    requires DistinctNames(entries)
    ensures var (after, r) := Inject(table, uuid, st, instance, entries, fuel);
            r.Success? ==>
              && r.value.cls == instance.cls && r.value.serial == instance.serial
              && r.value.props.Keys == instance.props.Keys + Names(entries)
              && (forall p :: p in instance.props && p !in Names(entries) ==> r.value.props[p] == instance.props[p])
              && (forall i :: 0 <= i < |entries| ==> Filled(after, r.value, entries[i]))
    decreases |entries|
  {
    if entries != [] {
      var (name, key) := entries[0];
      var got := Get(table, uuid, st, key, fuel);
      if got.1.Success? {
        var next := instance.(props := instance.props[name := got.1.value]);
        var rest := entries[1..];
        InjectFills(table, uuid, got.0, next, rest, fuel);
        var (after, r) := Inject(table, uuid, got.0, next, rest, fuel);
        InjectExtends(table, uuid, got.0, next, rest, fuel);
        if r.Success? {
          assert r.value.props[name] == got.1.value;
          if key.Cls? {
            GetCaches(table, uuid, st, key.c, fuel);
          }
          assert Filled(after, r.value, entries[0]);
          forall i | 1 <= i < |entries| ensures Filled(after, r.value, entries[i]) {
            assert entries[i] == rest[i - 1];
          }
        }
      }
    }
  }

  /**
   * A class requested for the first time is built, injected and only then cached: its instance is
   * of that class, carries exactly the properties recorded for the class (none when nothing is
   * recorded), and is what the cache now holds for the class.
   */
  lemma NewInstanceIsInjected(table: InjectTable, uuid: Uuids, st: Store, c: ClassId, fuel: nat)
    requires WellFormed(table)
    requires WithToken(st, c, uuid).classTokens[c] !in st.instances
    ensures var (after, r) := Get(table, uuid, st, Cls(c), fuel);
            r.Success? ==>
              && r.value.Some? && r.value.value.cls == c
              && r.value.value.props.Keys == Names(EntriesOf(table, c))
              && CachedAs(after, c, r.value.value)
  {
    var st1 := WithToken(st, c, uuid);
    assert st1.classTokens[c] !in st1.instances;
    GetCaches(table, uuid, st, c, fuel);
    if fuel > 0 {
      assert DistinctNames(EntriesOf(table, c));
      InjectFills(table, uuid, st1.(serials := st1.serials + 1), Instance(c, st1.serials, map[]), EntriesOf(table, c), fuel - 1);
    }
  }

  /** Every class a class depends on ranks strictly below it: the dependency graph has no cycle. */
  predicate Ranked(table: InjectTable, rank: ClassId -> nat) {
    forall c, i :: c in table && 0 <= i < |table[c]| && table[c][i].1.Cls? ==> rank(table[c][i].1.c) < rank(c)
  }

  /** With an acyclic dependency graph every request completes once the stack is deeper than the class's rank. */
  lemma {:induction false} AcyclicRequestsSucceed(table: InjectTable, uuid: Uuids, rank: ClassId -> nat, st: Store, k: Key, fuel: nat)
    requires Ranked(table, rank)
    requires k.Cls? ==> rank(k.c) < fuel
    ensures Get(table, uuid, st, k, fuel).1.Success?
    decreases fuel, 1, 0
  {
    if k.Cls? {
      var st1 := WithToken(st, k.c, uuid);
      if st1.classTokens[k.c] !in st1.instances {
        var entries := EntriesOf(table, k.c);
        forall i | 0 <= i < |entries| && entries[i].1.Cls? ensures rank(entries[i].1.c) < fuel - 1 {
          assert k.c in table && table[k.c][i] == entries[i];
        }
        AcyclicInjectSucceeds(table, uuid, rank, st1.(serials := st1.serials + 1),
                              Instance(k.c, st1.serials, map[]), entries, fuel - 1);
      }
    }
  }

  lemma {:induction false} AcyclicInjectSucceeds(table: InjectTable, uuid: Uuids, rank: ClassId -> nat, st: Store,
                                                 instance: Instance, entries: Entries, fuel: nat)
    requires Ranked(table, rank)
    requires forall i :: 0 <= i < |entries| && entries[i].1.Cls? ==> rank(entries[i].1.c) < fuel
    ensures Inject(table, uuid, st, instance, entries, fuel).1.Success?
    decreases fuel, 2, |entries|
  {
    if entries != [] {
      AcyclicRequestsSucceed(table, uuid, rank, st, entries[0].1, fuel);
      var got := Get(table, uuid, st, entries[0].1, fuel);
      forall i | 0 <= i < |entries[1..]| && entries[1..][i].1.Cls? ensures rank(entries[1..][i].1.c) < fuel {
        assert entries[1..][i] == entries[i + 1];
      }
      AcyclicInjectSucceeds(table, uuid, rank, got.0, instance.(props := instance.props[entries[0].0 := got.1.value]),
                            entries[1..], fuel);
    }
  }

  /**
   * A class whose first recorded property is of its own type is never cached: every request for
   * it recurses until the stack runs out, however deep the stack.
   */
  lemma {:induction false} SelfDependencyOverflows(table: InjectTable, uuid: Uuids, st: Store, c: ClassId, fuel: nat)
    requires EntriesOf(table, c) != [] && EntriesOf(table, c)[0].1 == Cls(c)
    requires WithToken(st, c, uuid).classTokens[c] !in st.instances
    ensures Get(table, uuid, st, Cls(c), fuel).1 == Failure(StackOverflow)
    decreases fuel
  {
    if fuel > 0 {
      var st1 := WithToken(st, c, uuid);
      var st2 := st1.(serials := st1.serials + 1);
      assert WithToken(st2, c, uuid) == st2;
      SelfDependencyOverflows(table, uuid, st2, c, fuel - 1);
    }
  }

  class DIStore {
    /** `_instances`: the cache, by token. */
    var instances: map<string, Instance>
    /** The `DI_TOKEN` metadata of each class. */
    var classTokens: map<ClassId, string>
    /** How many uuids have been drawn, and how many objects made. */
    var uuids: nat
    var serials: nat
    const uuid: Uuids
    /** The inject metadata recorded by `@Inject()`. */
    const table: InjectTable

    function State(): Store
      reads this
    {
      Store(instances, classTokens, uuids, serials)
    }

    constructor (uuid: Uuids, table: InjectTable)
      ensures State() == Store(map[], map[], 0, 0) && this.uuid == uuid && this.table == table
    {
      instances := map[];
      classTokens := map[];
      uuids := 0;
      serials := 0;
      this.uuid := uuid;
      this.table := table;
    }

    /** `getInstance(clsOrToken)` within `fuel` levels of nested construction. */
    method GetInstance(clsOrToken: Key, fuel: nat) returns (r: Result<Option<Instance>, DIError>)
      modifies this
      ensures (State(), r) == Get(table, uuid, old(State()), clsOrToken, fuel)
      decreases fuel, 1, 0
    {
      var token: string;
      if clsOrToken.Cls? {
        if clsOrToken.c !in classTokens {
          classTokens := classTokens[clsOrToken.c := uuid(uuids)];
          uuids := uuids + 1;
        }
        token := classTokens[clsOrToken.c];
      } else {
        token := clsOrToken.t;
      }
      if token in instances {
        return Success(Some(instances[token]));
      }
      if clsOrToken.Cls? {
        if fuel == 0 {
          return Failure(StackOverflow);
        }
        var instance := Instance(clsOrToken.c, serials, map[]);
        serials := serials + 1;
        var injected := InjectProperties(instance, clsOrToken.c, fuel - 1);
        if injected.Failure? {
          return Failure(injected.error);
        }
        instances := instances[token := injected.value];
        return Success(Some(injected.value));
      }
      return Success(None);
    }

    /** `injectProperties(instance, cls)`: the recorded properties in order, each set to a request for its key. */
    method InjectProperties(instance: Instance, cls: ClassId, fuel: nat) returns (r: Result<Instance, DIError>)
      modifies this
      ensures (State(), r) == Inject(table, uuid, old(State()), instance, EntriesOf(table, cls), fuel)
      decreases fuel, 2, 0
    {
      var propertiesToInject := EntriesOf(table, cls);
      var current := instance;
      var i := 0;
      while i < |propertiesToInject|
        invariant 0 <= i <= |propertiesToInject|
        invariant Inject(table, uuid, State(), current, propertiesToInject[i..], fuel)
               == Inject(table, uuid, old(State()), instance, propertiesToInject, fuel)
      {
        var entry := propertiesToInject[i];
        assert propertiesToInject[i..][0] == entry && propertiesToInject[i..][1..] == propertiesToInject[i + 1..];
        var value := GetInstance(entry.1, fuel);
        if value.Failure? {
          return Failure(value.error);
        }
        current := current.(props := current.props[entry.0 := value.value]);
        i := i + 1;
      }
      return Success(current);
    }
  }
}
