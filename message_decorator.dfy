/**
 * The parameter decorators `@Message()`, `@MessageRaw()` and `@MessageHeaders()`. Each records,
 * for one parameter position of one handler method, which part of an incoming message the handler
 * wants there. The records live in the reflect-metadata store, keyed by metadata key, target and
 * method name; here that store is an object with one map.
 */
module MessageDecorators {
  import opened Wrappers

  /** The three recordable values: `'headers'`, `'contentRaw'` and `'content'`. */
  datatype Binding = HeadersBinding | ContentRaw | Content

  /** Parameter index to binding, as recorded for one handler method. */
  type ParamMetadata = map<nat, Binding>

  /** The property name of the injectable-values object that a binding selects. */
  function BindingKey(b: Binding): string
  {
    match b
    case HeadersBinding => "headers"
    case ContentRaw => "contentRaw"
    case Content => "content"
  }

  /** The three bindings name three different properties, so no two parameters bindings are confused. */
  lemma BindingKeysDistinct(a: Binding, b: Binding)
    ensures BindingKey(a) == BindingKey(b) <==> a == b
  {
  }

  /** The metadata key the three decorators share (a symbol in the source). */
  const MESSAGE_KEY: string := "message"

  /** Where a record lives: the decorated method's target (its prototype) and its name. */
  datatype Site = Site(target: string, propertyKey: string)

  /**
   * The update `DecorateParameter` performs on one method's record: start from the stored record,
   * or `{}` when there is none, and set entry `parameterIndex` to `value`.
   */
  function Decorated(current: Option<ParamMetadata>, parameterIndex: nat, value: Binding): (r: ParamMetadata)
    ensures parameterIndex in r && r[parameterIndex] == value
    ensures r.Keys == (if current.Some? then current.value.Keys else {}) + {parameterIndex}
    ensures current.Some? ==> forall i :: i in current.value && i != parameterIndex ==> r[i] == current.value[i]
  {
    current.GetOr(map[])[parameterIndex := value]
  }

  /** Decorating the same position twice leaves only the second value. */
  lemma RedecorateOverwrites(current: Option<ParamMetadata>, parameterIndex: nat, first: Binding, second: Binding)
    ensures Decorated(Some(Decorated(current, parameterIndex, first)), parameterIndex, second)
         == Decorated(current, parameterIndex, second)
  {
  }

  /** Decorating two different positions gives the same record in either order. */
  lemma DecorationsCommute(current: Option<ParamMetadata>, i: nat, a: Binding, j: nat, b: Binding)
    requires i != j
    ensures Decorated(Some(Decorated(current, i, a)), j, b) == Decorated(Some(Decorated(current, j, b)), i, a)
  {
  }

  function Lookup(store: map<(string, Site), ParamMetadata>, key: string, site: Site): Option<ParamMetadata>
  {
    if (key, site) in store then Some(store[(key, site)]) else None
  }

  class MetadataStore {
    /** The records, keyed by metadata key and decorated site. */
    var store: map<(string, Site), ParamMetadata>

    constructor ()
      ensures store == map[]
    {
      store := map[];
    }

    /**
     * `DecorateParameter(key, value)` applied to parameter `parameterIndex` of `propertyKey` on
     * `target`: the record of that site gains the entry and no other site's record changes.
     */
    method DecorateParameter(key: string, value: Binding, target: string, propertyKey: string, parameterIndex: nat)
      modifies this
      ensures (key, Site(target, propertyKey)) in store
      ensures store[(key, Site(target, propertyKey))]
           == Decorated(Lookup(old(store), key, Site(target, propertyKey)), parameterIndex, value)
      ensures forall k, s :: (k, s) != (key, Site(target, propertyKey)) ==>
                Lookup(store, k, s) == Lookup(old(store), k, s)
    {
      var site := Site(target, propertyKey);
      var metadata := Lookup(store, key, site).GetOr(map[]);
      metadata := metadata[parameterIndex := value];
      store := store[(key, site) := metadata];
    }

    /** `@MessageHeaders()`: the parameter receives the message headers. */
    method MessageHeaders(target: string, propertyKey: string, parameterIndex: nat)
      modifies this
      ensures store == old(store)[(MESSAGE_KEY, Site(target, propertyKey)) :=
                Decorated(Lookup(old(store), MESSAGE_KEY, Site(target, propertyKey)), parameterIndex, HeadersBinding)]
    {
      DecorateParameter(MESSAGE_KEY, HeadersBinding, target, propertyKey, parameterIndex);
      MapsAgree(old(store), store, MESSAGE_KEY, Site(target, propertyKey));
    }

    /** `@MessageRaw()`: the parameter receives the body as text. */
    method MessageRaw(target: string, propertyKey: string, parameterIndex: nat)
      modifies this
      ensures store == old(store)[(MESSAGE_KEY, Site(target, propertyKey)) :=
                Decorated(Lookup(old(store), MESSAGE_KEY, Site(target, propertyKey)), parameterIndex, ContentRaw)]
    {
      DecorateParameter(MESSAGE_KEY, ContentRaw, target, propertyKey, parameterIndex);
      MapsAgree(old(store), store, MESSAGE_KEY, Site(target, propertyKey));
    }

    /** `@Message()`: the parameter receives the parsed body. */
    method Message(target: string, propertyKey: string, parameterIndex: nat)
      modifies this
      ensures store == old(store)[(MESSAGE_KEY, Site(target, propertyKey)) :=
                Decorated(Lookup(old(store), MESSAGE_KEY, Site(target, propertyKey)), parameterIndex, Content)]
    {
      DecorateParameter(MESSAGE_KEY, Content, target, propertyKey, parameterIndex);
      MapsAgree(old(store), store, MESSAGE_KEY, Site(target, propertyKey));
    }
  }

  /** Two stores that agree on every site except one, where the second holds `v`, are one update apart. */
  lemma MapsAgree(before: map<(string, Site), ParamMetadata>, after: map<(string, Site), ParamMetadata>,
                  key: string, site: Site)
    requires (key, site) in after
    requires forall k, s :: (k, s) != (key, site) ==> Lookup(after, k, s) == Lookup(before, k, s)
    ensures after == before[(key, site) := after[(key, site)]]
  {
    var expected := before[(key, site) := after[(key, site)]];
    forall p | p in after ensures p in expected && after[p] == expected[p] {
      if p != (key, site) { assert Lookup(after, p.0, p.1) == Lookup(before, p.0, p.1); }
    }
    forall p | p in expected ensures p in after {
      if p != (key, site) { assert Lookup(after, p.0, p.1) == Lookup(before, p.0, p.1); }
    }
  }
}
