/**
 * The configuration factory: every entry of the (already validated) environment becomes a value
 * in a nested configuration object. The environment key is normalised by `TransformKey`
 * (`DB__HOST_NAME` becomes `db.hostName`); the dots of the result name the path of nested
 * objects, which `AppendValue` creates as needed, refusing with "Key already exists" to replace
 * anything already defined.
 */
module ConfigFactory {
  import opened Wrappers
  import opened JsText
  import opened SeqFacts

  // ---------------------------------------------------------------------------------------------
  // Key normalisation
  // ---------------------------------------------------------------------------------------------

  /** The class `\w` of JavaScript regular expressions (without the `u` flag). */
  predicate IsWordChar(c: char) {
    IsAsciiLower(c) || IsAsciiUpper(c) || ('0' <= c <= '9') || c == '_'
  }

  /** `s.replace(/__/g, '.')`: pairs of underscores, matched left to right without overlap. */
  function DotPairs(s: string): string
    decreases |s|
  {
    if |s| >= 2 && s[0] == '_' && s[1] == '_' then "." + DotPairs(s[2..])
    else if s == [] then ""
    else [s[0]] + DotPairs(s[1..])
  }

  /** `s.replace(/_(\w)/g, v => v.substring(1).toUpperCase())`: an underscore and the word character after it become that character in upper case. */
  function CamelWords(s: string): string
    decreases |s|
  {
    if |s| >= 2 && s[0] == '_' && IsWordChar(s[1]) then [ToAsciiUpper(s[1])] + CamelWords(s[2..])
    else if s == [] then ""
    else [s[0]] + CamelWords(s[1..])
  }

  /** `transformKey`: lower-case, then `__` to `.`, then `_x` to `X`, in that order. */
  function TransformKey(rawKey: string): string
  {
    CamelWords(DotPairs(LowerAscii(rawKey)))
  }

  predicate EndsWithUnderscore(s: string) {
    |s| > 0 && s[|s| - 1] == '_'
  }

  predicate NoDoubleUnderscore(s: string) {
    forall i :: 0 <= i < |s| - 1 && s[i] == '_' ==> s[i + 1] != '_'
  }

  lemma LowerAsciiConcat(x: string, y: string)
    ensures LowerAscii(x + y) == LowerAscii(x) + LowerAscii(y)
    ensures EndsWithUnderscore(LowerAscii(x)) == EndsWithUnderscore(x)
  {
    assert LowerAscii(x + y) == LowerAscii(x) + LowerAscii(y);
  }

  /** The pair replacement of a string that does not end in `_` does not reach past its end. */
  lemma {:induction false} DotPairsConcat(x: string, y: string)
    requires !EndsWithUnderscore(x)
    ensures DotPairs(x + y) == DotPairs(x) + DotPairs(y)
    decreases |x|
  {
    var s := x + y;
    if x == [] {
      assert s == y;
    } else if |x| >= 2 && x[0] == '_' && x[1] == '_' {
      assert s[0] == '_' && s[1] == '_';
      assert s[2..] == x[2..] + y;
      DotPairsConcat(x[2..], y);
      AppendChain(DotPairs(s), DotPairs(x), DotPairs(y), ".", DotPairs(x[2..]));
    } else {
      assert s[0] == x[0];
      assert |x| == 1 ==> x[0] != '_';
      assert !(s[0] == '_' && s[1] == '_');
      assert s[1..] == x[1..] + y;
      DotPairsConcat(x[1..], y);
      AppendChain(DotPairs(s), DotPairs(x), DotPairs(y), [x[0]], DotPairs(x[1..]));
    }
  }

  /** The camel-casing of a string that does not end in `_` does not reach past its end. */
  lemma {:induction false} CamelWordsConcat(x: string, y: string)
    requires !EndsWithUnderscore(x)
    ensures CamelWords(x + y) == CamelWords(x) + CamelWords(y)
    decreases |x|
  {
    var s := x + y;
    if x == [] {
      assert s == y;
    } else if |x| >= 2 && x[0] == '_' && IsWordChar(x[1]) {
      assert s[0] == '_' && s[1] == x[1];
      assert s[2..] == x[2..] + y;
      CamelWordsConcat(x[2..], y);
      AppendChain(CamelWords(s), CamelWords(x), CamelWords(y), [ToAsciiUpper(x[1])], CamelWords(x[2..]));
    } else {
      assert s[0] == x[0];
      assert |x| == 1 ==> x[0] != '_';
      assert !(|s| >= 2 && s[0] == '_' && IsWordChar(s[1]));
      assert s[1..] == x[1..] + y;
      CamelWordsConcat(x[1..], y);
      AppendChain(CamelWords(s), CamelWords(x), CamelWords(y), [x[0]], CamelWords(x[1..]));
    }
  }

  lemma {:induction false} DotPairsEnd(x: string)
    requires !EndsWithUnderscore(x)
    ensures !EndsWithUnderscore(DotPairs(x))
    decreases |x|
  {
    if |x| >= 2 && x[0] == '_' && x[1] == '_' {
      DotPairsEnd(x[2..]);
    } else if x != [] {
      if |x| > 1 {
        assert x[1..][|x[1..]| - 1] == x[|x| - 1];
      }
      DotPairsEnd(x[1..]);
    }
  }

  /**
   * Normalisation is compositional at every point not preceded by `_`: the key is rewritten piece
   * by piece, each `__` becoming one `.`, so the dotted path has one segment per `__`-separated
   * piece of the raw key.
   */
  lemma TransformKeyConcat(x: string, y: string)
    requires !EndsWithUnderscore(x)
    ensures TransformKey(x + y) == TransformKey(x) + TransformKey(y)
  {
    LowerAsciiConcat(x, y);
    DotPairsConcat(LowerAscii(x), LowerAscii(y));
    DotPairsEnd(LowerAscii(x));
    CamelWordsConcat(DotPairs(LowerAscii(x)), DotPairs(LowerAscii(y)));
  }

  /** A character other than `_` is lower-cased, and the rest is normalised on its own. */
  lemma TransformKeyLetter(c: char, y: string)
    requires c != '_'
    ensures TransformKey([c] + y) == [ToAsciiLower(c)] + TransformKey(y)
  {
    TransformKeyConcat([c], y);
    var lc := ToAsciiLower(c);
    assert LowerAscii([c]) == [lc];
    assert DotPairs([lc]) == [lc] + DotPairs([]);
    assert CamelWords([lc]) == [lc] + CamelWords([]);
  }

  /** `__` becomes `.`, whatever follows. */
  lemma TransformKeyDot(y: string)
    ensures TransformKey("__" + y) == "." + TransformKey(y)
  {
    var ly := LowerAscii(y);
    LowerAsciiConcat("__", y);
    assert LowerAscii("__") == "__";
    var s := "__" + ly;
    assert s[0] == '_' && s[1] == '_' && s[2..] == ly;
    assert DotPairs(s) == "." + DotPairs(ly);
    var d := "." + DotPairs(ly);
    assert d[0] == '.' && d[1..] == DotPairs(ly);
    assert CamelWords(d) == "." + CamelWords(DotPairs(ly));
  }

  /** `_` before a word character other than `_` disappears and upper-cases that character. */
  lemma TransformKeyCamel(c: char, y: string)
    requires IsWordChar(c) && c != '_'
    ensures TransformKey(['_', c] + y) == [ToAsciiUpper(ToAsciiLower(c))] + TransformKey(y)
  {
    var lc := ToAsciiLower(c);
    var ly := LowerAscii(y);
    LowerAsciiConcat(['_', c], y);
    assert LowerAscii(['_', c]) == ['_', lc];
    var s := ['_', lc] + ly;
    assert s[0] == '_' && s[1] == lc && s[1..] == [lc] + ly && ([lc] + ly)[1..] == ly;
    assert DotPairs(s) == ['_'] + DotPairs([lc] + ly);
    assert DotPairs([lc] + ly) == [lc] + DotPairs(ly);
    var d := ['_', lc] + DotPairs(ly);
    assert DotPairs(s) == d;
    assert IsWordChar(lc);
    assert d[0] == '_' && d[1] == lc && d[2..] == DotPairs(ly);
    assert CamelWords(d) == [ToAsciiUpper(lc)] + CamelWords(DotPairs(ly));
  }

  lemma ConsNoDoubleUnderscore(a: char, r: string)
    requires NoDoubleUnderscore(r)
    requires a == '_' ==> r == [] || r[0] != '_'
    ensures NoDoubleUnderscore([a] + r)
  {
    var s := [a] + r;
    forall i | 0 <= i < |s| - 1 && s[i] == '_' ensures s[i + 1] != '_' {
      if i > 0 {
        assert s[i] == r[i - 1] && s[i + 1] == r[i];
      }
    }
  }

  lemma {:induction false} DotPairsNoDoubleUnderscore(s: string)
    ensures NoDoubleUnderscore(DotPairs(s))
    decreases |s|
  {
    if |s| >= 2 && s[0] == '_' && s[1] == '_' {
      DotPairsNoDoubleUnderscore(s[2..]);
      ConsNoDoubleUnderscore('.', DotPairs(s[2..]));
    } else if s != [] {
      var t := s[1..];
      DotPairsNoDoubleUnderscore(t);
      if s[0] == '_' && t != [] {
        assert t[0] == s[1] && t[0] != '_';
        assert DotPairs(t) == [t[0]] + DotPairs(t[1..]);
      }
      ConsNoDoubleUnderscore(s[0], DotPairs(t));
    }
  }

  /** The camel-casing starts with `_` only where its input does. */
  lemma CamelWordsFirst(t: string)
    requires t != []
    ensures CamelWords(t) != [] && (CamelWords(t)[0] == '_' ==> t[0] == '_')
  {
  }

  lemma {:induction false} CamelWordsNoDoubleUnderscore(s: string)
    requires NoDoubleUnderscore(s)
    ensures NoDoubleUnderscore(CamelWords(s))
    decreases |s|
  {
    if |s| >= 2 && s[0] == '_' && IsWordChar(s[1]) {
      var t := s[2..];
      forall i | 0 <= i < |t| - 1 && t[i] == '_' ensures t[i + 1] != '_' {
        assert t[i] == s[i + 2] && t[i + 1] == s[i + 3];
      }
      CamelWordsNoDoubleUnderscore(t);
      assert s[1] != '_';
      ConsNoDoubleUnderscore(ToAsciiUpper(s[1]), CamelWords(t));
    } else if s != [] {
      var t := s[1..];
      forall i | 0 <= i < |t| - 1 && t[i] == '_' ensures t[i + 1] != '_' {
        assert t[i] == s[i + 1] && t[i + 1] == s[i + 2];
      }
      CamelWordsNoDoubleUnderscore(t);
      if t != [] {
        CamelWordsFirst(t);
        assert s[0] == '_' ==> t[0] != '_';
      }
      ConsNoDoubleUnderscore(s[0], CamelWords(t));
    }
  }

  /**
   * A normalised key never holds `__`, so no path segment is one of the prototype accessors
   * `__proto__`, `__defineGetter__` and the like.
   */
  lemma TransformKeyHasNoDoubleUnderscore(rawKey: string)
    ensures NoDoubleUnderscore(TransformKey(rawKey))
  {
    DotPairsNoDoubleUnderscore(LowerAscii(rawKey));
    CamelWordsNoDoubleUnderscore(DotPairs(LowerAscii(rawKey)));
  }

  // ---------------------------------------------------------------------------------------------
  // The configuration tree
  // ---------------------------------------------------------------------------------------------

  /** A validated environment value (Joi may convert the text to a number, a boolean or an object). */
  datatype EnvValue =
    | Null
    | Bool(b: bool)
    | Number(n: real)
    | Str(s: string)
    | Obj(fields: map<string, EnvValue>)

  /** The own properties of a plain object. */
  type Tree = map<string, EnvValue>

  datatype ConfigError = KeyAlreadyExists

  /**
   * The properties every plain object inherits from `Object.prototype` whose names hold no `__`:
   * methods, so defined and not objects.
   */
  const InheritedNames: set<string> :=
    {"constructor", "hasOwnProperty", "isPrototypeOf", "propertyIsEnumerable",
     "toLocaleString", "toString", "valueOf"}

  /** What `obj[k]` reads: an own value, an inherited method, or `undefined`. */
  datatype Slot = Missing | Own(value: EnvValue) | Inherited

  function SlotOf(obj: Tree, k: string): Slot {
    if k in obj then Own(obj[k]) else if k in InheritedNames then Inherited else Missing
  }

  /** The walk may go through `obj[k]`: it is `undefined` (and will be created) or an object. */
  predicate Passable(obj: Tree, k: string) {
    SlotOf(obj, k).Missing? || (SlotOf(obj, k).Own? && SlotOf(obj, k).value.Obj?)
  }

  /** The object the walk moves into: the existing one, or a new `{}`. */
  function ChildOf(obj: Tree, k: string): Tree {
    if k in obj && obj[k].Obj? then obj[k].fields else map[]
  }

  /**
   * Writing `value` at the path `parts` under `obj`, as the walk of `appendValue` does: the new
   * object (with whatever empty objects were created before a throw) and whether it went through.
   */
  function Insert(obj: Tree, parts: seq<string>, value: EnvValue): (Tree, bool)
    requires |parts| >= 1
    decreases |parts|
  {
    var k := parts[0];
    if |parts| == 1 then
      if SlotOf(obj, k).Missing? then (obj[k := value], true) else (obj, false)
    else if !Passable(obj, k) then (obj, false)
    else
      var inner := Insert(ChildOf(obj, k), parts[1..], value);
      (obj[k := Obj(inner.0)], inner.1)
  }

  /** The own value found by following own properties along `path`, if there is one. */
  function At(obj: Tree, path: seq<string>): Option<EnvValue>
    requires |path| >= 1
    decreases |path|
  {
    var k := path[0];
    if k !in obj then None
    else if |path| == 1 then Some(obj[k])
    else if obj[k].Obj? then At(obj[k].fields, path[1..])
    else None
  }

  /** A path of new objects ending in `value`. */
  function Chain(path: seq<string>, value: EnvValue): EnvValue
    decreases |path|
  {
    if path == [] then value else Obj(map[path[0] := Chain(path[1..], value)])
  }

  /** `appendValue(key, value)` on a tree: the new tree and whether it threw. */
  function Appended(obj: Tree, key: string, value: EnvValue): (Tree, Result<(), ConfigError>)
  {
    if value.Null? then (obj, Success(()))
    else
      var inserted := Insert(obj, Split(key, '.'), value);
      (inserted.0, if inserted.1 then Success(()) else Failure(KeyAlreadyExists))
  }

  /** `parse(env)`: every entry appended in order under its normalised key, stopping at the first throw. */
  function Parsed(obj: Tree, env: seq<(string, EnvValue)>): (Tree, Result<(), ConfigError>)
    decreases |env|
  {
    if env == [] then (obj, Success(()))
    else
      var before := Parsed(obj, env[..|env| - 1]);
      if before.1.Failure? then before
      else Appended(before.0, TransformKey(env[|env| - 1].0), env[|env| - 1].1)
  }

  // ---------------------------------------------------------------------------------------------
  // What an append does
  // ---------------------------------------------------------------------------------------------

  /** A `null` value is skipped: nothing changes and nothing is thrown. */
  lemma NullIsSkipped(obj: Tree, key: string)
    ensures Appended(obj, key, Null) == (obj, Success(()))
  {
  }

  /** After an insertion that goes through, the value sits at its path. */
  lemma {:induction false} InsertPlacesValue(obj: Tree, parts: seq<string>, value: EnvValue)
    requires |parts| >= 1
    ensures Insert(obj, parts, value).1 ==> At(Insert(obj, parts, value).0, parts) == Some(value)
    decreases |parts|
  {
    if |parts| > 1 && Passable(obj, parts[0]) {
      InsertPlacesValue(ChildOf(obj, parts[0]), parts[1..], value);
    }
  }

  /**
   * Whatever the outcome, everything present stays present, and a present value that is not an
   * object (a leaf) keeps its value: nothing is ever overwritten.
   */
  lemma {:induction false} InsertKeepsPresent(obj: Tree, parts: seq<string>, value: EnvValue, q: seq<string>)
    requires |parts| >= 1 && |q| >= 1
    requires At(obj, q).Some?
    ensures At(Insert(obj, parts, value).0, q).Some?
    ensures !At(obj, q).value.Obj? ==> At(Insert(obj, parts, value).0, q) == At(obj, q)
    decreases |parts|
  {
    var k := parts[0];
    var after := Insert(obj, parts, value).0;
    if |parts| == 1 || !Passable(obj, k) {
      assert q[0] == k ==> after == obj;
      assert q[0] != k ==> q[0] in after && after[q[0]] == obj[q[0]];
    } else {
      var inner := Insert(ChildOf(obj, k), parts[1..], value);
      assert after == obj[k := Obj(inner.0)];
      if q[0] == k && |q| > 1 {
        InsertKeepsPresent(ChildOf(obj, k), parts[1..], value, q[1..]);
      } else if q[0] != k {
        assert after[q[0]] == obj[q[0]];
      }
    }
  }

  /** A path that already holds a value throws, and the tree is left as it was. */
  lemma {:induction false} DefinedLeafThrows(obj: Tree, parts: seq<string>, value: EnvValue)
    requires |parts| >= 1
    requires At(obj, parts).Some?
    ensures Insert(obj, parts, value) == (obj, false)
    decreases |parts|
  {
    var k := parts[0];
    if |parts| > 1 {
      DefinedLeafThrows(obj[k].fields, parts[1..], value);
      assert obj[k := Obj(obj[k].fields)] == obj;
    }
  }

  /** A non-object met on the way down (a leaf or `null`) throws, and the tree is left as it was. */
  lemma {:induction false} BlockedPathThrows(obj: Tree, parts: seq<string>, value: EnvValue, j: nat)
    requires j + 1 < |parts|
    requires At(obj, parts[..j + 1]).Some? && !At(obj, parts[..j + 1]).value.Obj?
    ensures Insert(obj, parts, value) == (obj, false)
    decreases j
  {
    var k := parts[0];
    assert parts[..j + 1][0] == k;
    if j > 0 {
      assert parts[..j + 1][1..] == parts[1..][..j];
      BlockedPathThrows(obj[k].fields, parts[1..], value, j - 1);
      assert obj[k := Obj(obj[k].fields)] == obj;
    }
  }

  /** On a path that does not exist yet, every missing object is created as `{}` and the value is written at the end. */
  lemma {:induction false} MissingPathIsCreated(obj: Tree, parts: seq<string>, value: EnvValue)
    requires |parts| >= 1 && parts[0] !in obj
    requires forall i :: 0 <= i < |parts| ==> parts[i] !in InheritedNames
    ensures Insert(obj, parts, value) == (obj[parts[0] := Chain(parts[1..], value)], true)
    decreases |parts|
  {
    if |parts| > 1 {
      assert parts[1..][0] == parts[1];
      MissingPathIsCreated(map[], parts[1..], value);
      assert parts[1..][1..] == parts[2..];
    }
  }

  /**
   * An inherited method name on a path that does not exist yet throws when the walk reaches it,
   * leaving behind the empty objects created before it.
   */
  lemma {:induction false} InheritedNameThrows(obj: Tree, parts: seq<string>, value: EnvValue, j: nat)
    requires j < |parts| && parts[0] !in obj
    requires parts[j] in InheritedNames
    requires forall i :: 0 <= i < j ==> parts[i] !in InheritedNames
    ensures j == 0 ==> Insert(obj, parts, value) == (obj, false)
    ensures j > 0 ==> Insert(obj, parts, value) == (obj[parts[0] := Chain(parts[1..j], Obj(map[]))], false)
    decreases j
  {
    if j > 0 {
      var rest := parts[1..];
      assert rest[0] == parts[1] && rest[j - 1] == parts[j];
      InheritedNameThrows(map[], rest, value, j - 1);
      if j > 1 {
        assert rest[1..j - 1] == parts[2..j];
        assert parts[1..j][1..] == parts[2..j];
      }
    }
  }

  // ---------------------------------------------------------------------------------------------
  // What a parse does
  // ---------------------------------------------------------------------------------------------

  /** Once an append throws, the parse has thrown: later entries are not looked at. */
  lemma {:induction false} ThrowStopsParse(obj: Tree, env: seq<(string, EnvValue)>, k: nat)
    requires k <= |env|
    requires Parsed(obj, env[..k]).1.Failure?
    ensures Parsed(obj, env) == Parsed(obj, env[..k])
    decreases |env|
  {
    if k < |env| {
      var shorter := env[..|env| - 1];
      assert shorter[..k] == env[..k];
      ThrowStopsParse(obj, shorter, k);
    } else {
      assert env[..k] == env;
    }
  }

  /** What a prefix of the parse put in the tree stays there when the whole parse goes through. */
  lemma {:induction false} ParsedKeepsPresent(obj: Tree, env: seq<(string, EnvValue)>, k: nat, q: seq<string>)
    requires k <= |env| && |q| >= 1
    requires Parsed(obj, env).1.Success?
    requires At(Parsed(obj, env[..k]).0, q).Some?
    ensures At(Parsed(obj, env).0, q).Some?
    ensures !At(Parsed(obj, env[..k]).0, q).value.Obj? ==> At(Parsed(obj, env).0, q) == At(Parsed(obj, env[..k]).0, q)
    decreases |env|
  {
    if k == |env| {
      assert env[..k] == env;
    } else {
      var shorter := env[..|env| - 1];
      assert shorter[..k] == env[..k];
      var before := Parsed(obj, shorter);
      assert before.1.Success?;
      ParsedKeepsPresent(obj, shorter, k, q);
      var last := env[|env| - 1];
      if !last.1.Null? {
        InsertKeepsPresent(before.0, Split(TransformKey(last.0), '.'), last.1, q);
      }
    }
  }

  /** A parse that goes through holds every non-null entry at the path of its normalised key. */
  lemma ParseStoresEveryEntry(obj: Tree, env: seq<(string, EnvValue)>, i: nat)
    requires i < |env| && !env[i].1.Null?
    requires Parsed(obj, env).1.Success?
    ensures var path := Split(TransformKey(env[i].0), '.');
            && At(Parsed(obj, env).0, path).Some?
            && (!env[i].1.Obj? ==> At(Parsed(obj, env).0, path) == Some(env[i].1))
  {
    var path := Split(TransformKey(env[i].0), '.');
    var upTo := env[..i + 1];
    assert upTo[..i] == env[..i];
    if Parsed(obj, upTo).1.Failure? {
      ThrowStopsParse(obj, env, i + 1);
    }
    var before := Parsed(obj, env[..i]);
    InsertPlacesValue(before.0, path, env[i].1);
    ParsedKeepsPresent(obj, env, i + 1, path);
  }

  /** Two entries whose keys normalise to the same path (neither value `null`) make the parse throw. */
  lemma CollidingKeysThrow(obj: Tree, env: seq<(string, EnvValue)>, i: nat, j: nat)
    requires i < j < |env|
    requires TransformKey(env[i].0) == TransformKey(env[j].0)
    requires !env[i].1.Null? && !env[j].1.Null?
    ensures Parsed(obj, env).1.Failure?
  {
    var path := Split(TransformKey(env[i].0), '.');
    var upToJ := env[..j];
    if Parsed(obj, upToJ).1.Failure? {
      ThrowStopsParse(obj, env, j);
    } else {
      assert upToJ[i] == env[i];
      ParseStoresEveryEntry(obj, upToJ, i);
      var through := env[..j + 1];
      assert through[..j] == upToJ;
      DefinedLeafThrows(Parsed(obj, upToJ).0, path, env[j].1);
      ThrowStopsParse(obj, env, j + 1);
    }
  }

  // ---------------------------------------------------------------------------------------------
  // The factory
  // ---------------------------------------------------------------------------------------------

  class Factory {
    /** The configuration built so far: the own properties of `configObject`. */
    var configObject: Tree

    constructor ()
      ensures configObject == map[]
    {
      configObject := map[];
    }

    /**
     * `appendValue(key, value)`. The walk goes down the dotted path one segment at a time,
     * collecting the object it stands in (creating `{}` for a missing segment), then writes the
     * result back up the path.
     */
    method AppendValue(key: string, value: EnvValue) returns (r: Result<(), ConfigError>)
      requires NoDoubleUnderscore(key)
      modifies this
      ensures (configObject, r) == Appended(old(configObject), key, value)
    {
      if value.Null? {
        return Success(());
      }
      var keyParts := Split(key, '.');
      var n := |keyParts|;
      var trail: seq<Tree> := [configObject];
      var i := 0;
      var blocked := false;
      while i < n - 1
        invariant 0 <= i <= n - 1 && |trail| == i + 1 && trail[0] == configObject
        invariant !blocked
        invariant forall j :: 0 <= j < i ==>
                    Passable(trail[j], keyParts[j]) && trail[j + 1] == ChildOf(trail[j], keyParts[j])
      {
        var slot := SlotOf(trail[i], keyParts[i]);
        if slot.Missing? {
          trail := trail + [map[]];
        } else if slot.Own? && slot.value.Obj? {
          trail := trail + [slot.value.fields];
        } else {
          blocked := true;
          break;
        }
        i := i + 1;
      }
      var bottom: Tree;
      var ok: bool;
      if blocked {
        bottom, ok := trail[i], false;
      } else {
        var lastKey := keyParts[n - 1];
        if SlotOf(trail[i], lastKey).Missing? {
          bottom, ok := trail[i][lastKey := value], true;
        } else {
          bottom, ok := trail[i], false;
        }
      }
      assert (bottom, ok) == Insert(trail[i], keyParts[i..], value);
      var obj := bottom;
      var j := i;
      while j > 0
        invariant 0 <= j <= i
        invariant (obj, ok) == Insert(trail[j], keyParts[j..], value)
      {
        assert keyParts[j - 1..][1..] == keyParts[j..];
        obj := trail[j - 1][keyParts[j - 1] := Obj(obj)];
        j := j - 1;
      }
      configObject := obj;
      r := if ok then Success(()) else Failure(KeyAlreadyExists);
    }

    /** `parse(env)`: each entry appended under its normalised key, in order. */
    method Parse(env: seq<(string, EnvValue)>) returns (r: Result<(), ConfigError>)
      modifies this
      ensures (configObject, r) == Parsed(old(configObject), env)
    {
      ghost var start := configObject;
      var k := 0;
      while k < |env|
        invariant 0 <= k <= |env|
        invariant (configObject, Success(())) == Parsed(start, env[..k])
      {
        var entry := env[k];
        TransformKeyHasNoDoubleUnderscore(entry.0);
        var appended := AppendValue(TransformKey(entry.0), entry.1);
        assert env[..k + 1][..k] == env[..k];
        if appended.Failure? {
          ThrowStopsParse(start, env, k + 1);
          return appended;
        }
        k := k + 1;
      }
      assert env[..k] == env;
      r := Success(());
    }
  }
}
