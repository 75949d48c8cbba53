/**
 * The `@Inject()` property decorator: it records, on the class that declares the property, which
 * class or token the property is to be filled from. The records of one class form an ordered
 * table (a plain object: a new property goes to the end, an existing one keeps its place).
 */
module DiDecorators {
  import opened Wrappers

  /** Classes are identified by number. */
  type ClassId = nat

  /** The `Object` constructor, what `design:type` reports for an untyped property. */
  const ObjectClass: ClassId := 0

  /** What a property is injected from: a class (constructor) or any other token. */
  datatype Key = Cls(c: ClassId) | Token(t: string)

  /** A falsy key: the empty-string token. */
  predicate IsFalsy(k: Key) {
    k.Token? && k.t == ""
  }

  /** The inject metadata of one class: property names and keys, in insertion order. */
  type Entries = seq<(string, Key)>

  /** The names of a table. */
  function Names(entries: Entries): set<string>
    decreases |entries|
  {
    if entries == [] then {} else {entries[0].0} + Names(entries[1..])
  }

  /** No property is recorded twice, as for the keys of an object. */
  predicate DistinctNames(entries: Entries)
    decreases |entries|
  {
    entries == [] || (entries[0].0 !in Names(entries[1..]) && DistinctNames(entries[1..]))
  }

  /** `metadata[property]`. */
  function Lookup(entries: Entries, property: string): Option<Key>
    decreases |entries|
  {
    if entries == [] then None
    else if entries[0].0 == property then Some(entries[0].1)
    else Lookup(entries[1..], property)
  }

  /** `metadata[property] = key` on a plain object: overwrite in place, or append. */
  function SetEntry(entries: Entries, property: string, key: Key): Entries
    decreases |entries|
  {
    if entries == [] then [(property, key)]
    else if entries[0].0 == property then [(property, key)] + entries[1..]
    else [entries[0]] + SetEntry(entries[1..], property, key)
  }

  /** After setting, the property reads the new key and every other property reads what it did. */
  lemma {:induction false} SetEntryLookup(entries: Entries, property: string, key: Key, other: string)
    ensures Lookup(SetEntry(entries, property, key), property) == Some(key)
    ensures other != property ==> Lookup(SetEntry(entries, property, key), other) == Lookup(entries, other)
    decreases |entries|
  {
    if entries != [] && entries[0].0 != property {
      SetEntryLookup(entries[1..], property, key, other);
    }
  }

  /** Setting adds the property's name to the table and keeps the names distinct. */
  lemma {:induction false} SetEntryNames(entries: Entries, property: string, key: Key)
    ensures Names(SetEntry(entries, property, key)) == Names(entries) + {property}
    ensures DistinctNames(entries) ==> DistinctNames(SetEntry(entries, property, key))
    decreases |entries|
  {
    if entries != [] && entries[0].0 != property {
      var rest := entries[1..];
      SetEntryNames(rest, property, key);
      assert SetEntry(entries, property, key)[1..] == SetEntry(rest, property, key);
    } else if entries != [] {
      assert SetEntry(entries, property, key)[1..] == entries[1..];
    }
  }

  /** Setting the same property twice keeps only the second key. */
  lemma {:induction false} SetEntryOverwrites(entries: Entries, property: string, first: Key, second: Key)
    ensures SetEntry(SetEntry(entries, property, first), property, second) == SetEntry(entries, property, second)
    decreases |entries|
  {
    if entries != [] && entries[0].0 != property {
      SetEntryOverwrites(entries[1..], property, first, second);
    }
  }

  /** The key `@Inject(typeOrToken)` records: the explicit one, else the design type; none when that is absent, falsy or `Object`. */
  function ResolvedKey(typeOrToken: Option<Key>, designType: Option<Key>): (r: Option<Key>)
    ensures r.Some? <==> (if typeOrToken.Some? then typeOrToken else designType).Some?
                         && !IsFalsy((if typeOrToken.Some? then typeOrToken else designType).value)
                         && (if typeOrToken.Some? then typeOrToken else designType).value != Cls(ObjectClass)
    ensures r.Some? ==> r == (if typeOrToken.Some? then typeOrToken else designType)
  {
    var k := if typeOrToken.Some? then typeOrToken else designType;
    if k.None? || IsFalsy(k.value) || k.value == Cls(ObjectClass) then None else k
  }

  /** An explicit key wins over the design type. */
  lemma ExplicitKeyWins(k: Key, designType: Option<Key>)
    requires !IsFalsy(k) && k != Cls(ObjectClass)
    ensures ResolvedKey(Some(k), designType) == Some(k)
  {
  }

  /** The records of every class, keyed by the class a decorated property is declared on. */
  type InjectTable = map<ClassId, Entries>

  function EntriesOf(table: InjectTable, cls: ClassId): Entries {
    if cls in table then table[cls] else []
  }

  predicate WellFormed(table: InjectTable) {
    forall cls :: cls in table ==> DistinctNames(table[cls])
  }

  class InjectMetadata {
    /** `Reflect.getMetadata(INJECT_METADATA_KEY, cls)` for every class. */
    var table: InjectTable

    constructor ()
      ensures table == map[]
    {
      table := map[];
    }

    /**
     * `@Inject(typeOrToken)` applied to `property` of a class whose prototype is the decorator's
     * target, so `owner` is `target.constructor`.
     */
    method Inject(typeOrToken: Option<Key>, designType: Option<Key>, owner: ClassId, property: string)
      modifies this
      ensures ResolvedKey(typeOrToken, designType).None? ==> table == old(table)
      ensures ResolvedKey(typeOrToken, designType).Some? ==>
                table == old(table)[owner := SetEntry(EntriesOf(old(table), owner), property,
                                                      ResolvedKey(typeOrToken, designType).value)]
      ensures WellFormed(old(table)) ==> WellFormed(table)
    {
      var key := if typeOrToken.Some? then typeOrToken else designType;
      if key.None? || IsFalsy(key.value) || key.value == Cls(ObjectClass) {
        return;
      }
      var currentMetadata := EntriesOf(table, owner);
      if WellFormed(table) {
        SetEntryNames(currentMetadata, property, key.value);
      }
      currentMetadata := SetEntry(currentMetadata, property, key.value);
      table := table[owner := currentMetadata];
    }
  }
}
