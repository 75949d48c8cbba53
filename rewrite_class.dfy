/**
 * `rewriteClass(source, dest)`: every own property of `source` that `dest` does not already have
 * (as an own property or through its prototype chain) is copied onto `dest`, which is returned.
 */
module RewriteClass {

  /** A property value, opaque here. */
  type Value = nat

  /** The names of `names` kept by a merge: those `dest` has neither as its own nor by inheritance, in order. */
  function Absent(names: seq<string>, own: map<string, Value>, inherited: set<string>): seq<string>
    decreases |names|
  {
    if names == [] then []
    else (if names[0] !in own && names[0] !in inherited then [names[0]] else []) + Absent(names[1..], own, inherited)
  }

  /** The own properties of `dest` after the merge: its own ones, plus the source's that it lacked. */
  function Rewritten(own: map<string, Value>, inherited: set<string>, source: map<string, Value>): map<string, Value>
  {
    map n | n in own.Keys + (source.Keys - inherited) :: if n in own then own[n] else source[n]
  }

  /** Missing properties are copied with the source's value, existing ones keep theirs, and nothing else appears. */
  lemma RewrittenProperties(own: map<string, Value>, inherited: set<string>, source: map<string, Value>)
    ensures Rewritten(own, inherited, source).Keys == own.Keys + (source.Keys - inherited)
    ensures forall n :: n in own ==> Rewritten(own, inherited, source)[n] == own[n]
    ensures forall n :: n in source && n !in own && n !in inherited ==> Rewritten(own, inherited, source)[n] == source[n]
  {
  }

  /** A second merge from the same source changes nothing. */
  lemma RewriteIdempotent(own: map<string, Value>, inherited: set<string>, source: map<string, Value>, names: seq<string>)
    requires forall i :: 0 <= i < |names| ==> names[i] in source
    ensures Rewritten(Rewritten(own, inherited, source), inherited, source) == Rewritten(own, inherited, source)
    ensures Absent(names, Rewritten(own, inherited, source), inherited) == []
  {
    AbsentNone(names, Rewritten(own, inherited, source), inherited, source);
  }

  lemma {:induction false} AbsentNone(names: seq<string>, own: map<string, Value>, inherited: set<string>, source: map<string, Value>)
    requires forall i :: 0 <= i < |names| ==> names[i] in source
    requires forall n :: n in source ==> n in own || n in inherited
    ensures Absent(names, own, inherited) == []
    decreases |names|
  {
    if names != [] {
      assert names[0] in source;
      AbsentNone(names[1..], own, inherited, source);
    }
  }

  /** `names` lists every key of `props`, each once. */
  ghost predicate Listed(names: seq<string>, props: map<string, Value>) {
    && (forall i :: 0 <= i < |names| ==> names[i] in props)
    && (forall n :: n in props ==> n in names)
    && (forall i, j :: 0 <= i < j < |names| ==> names[i] != names[j])
  }

  /** A JavaScript object: its own properties, their names in creation order, and the names it inherits. */
  class JsObject {
    var names: seq<string>
    var props: map<string, Value>
    const inherited: set<string>

    /** `Object.getOwnPropertyNames` lists each own property once. */
    ghost predicate Valid()
      reads this
    {
      Listed(names, props)
    }

    constructor (names: seq<string>, props: map<string, Value>, inherited: set<string>)
      ensures this.names == names && this.props == props && this.inherited == inherited
    {
      this.names := names;
      this.props := props;
      this.inherited := inherited;
    }
  }

  /** The source's properties under the given names. */
  function Restrict(source: map<string, Value>, names: seq<string>): map<string, Value> {
    map n | n in source && n in names :: source[n]
  }

  /** One more source name: the merge gains that property exactly when `dest` lacked it. */
  lemma RewrittenStep(own: map<string, Value>, inherited: set<string>, source: map<string, Value>, names: seq<string>, i: nat)
    requires i < |names| && names[i] in source
    ensures var cur := Rewritten(own, inherited, Restrict(source, names[..i]));
            var n := names[i];
            Rewritten(own, inherited, Restrict(source, names[..i + 1]))
            == if n in cur || n in inherited then cur else cur[n := source[n]]
  {
    var n := names[i];
    assert names[..i + 1] == names[..i] + [n];
    assert forall m :: m in names[..i + 1] <==> m in names[..i] || m == n;
  }

  /** Merging an object into itself changes nothing. */
  lemma RewriteSelf(own: map<string, Value>, inherited: set<string>)
    ensures Rewritten(own, inherited, own) == own
  {
  }

  /**
   * The loop of `rewriteClass` over `names`, on values: each name is checked against the object as
   * it is at that point and copied when missing. The result is the new own properties and the
   * names added, in order.
   */
  function Copied(own: map<string, Value>, inherited: set<string>, source: map<string, Value>, names: seq<string>): (map<string, Value>, seq<string>)
    requires forall k :: 0 <= k < |names| ==> names[k] in source
    decreases |names|
  {
    if names == [] then (own, [])
    else
      var before := Copied(own, inherited, source, names[..|names| - 1]);
      var n := names[|names| - 1];
      if n in before.0 || n in inherited then before
      else (before.0[n := source[n]], before.1 + [n])
  }

  /** The loop over the first `i` listed source names computes the merge restricted to those names. */
  lemma {:induction false} CopiedPrefix(own: map<string, Value>, inherited: set<string>, source: map<string, Value>, names: seq<string>, i: nat)
    requires Listed(names, source) && i <= |names|
    ensures Copied(own, inherited, source, names[..i])
         == (Rewritten(own, inherited, Restrict(source, names[..i])), Absent(names[..i], own, inherited))
    decreases i
  {
    if i == 0 {
      assert names[..0] == [];
      assert Restrict(source, []) == map[];
      assert Rewritten(own, inherited, map[]) == own;
    } else {
      CopiedPrefix(own, inherited, source, names, i - 1);
      assert names[..i][..i - 1] == names[..i - 1];
      assert names[..i][i - 1] == names[i - 1];
      var before := Copied(own, inherited, source, names[..i - 1]);
      CopiedStep(own, inherited, source, names, i - 1, before.0, before.1);
    }
  }

  /** One turn of the loop: testing the object so far and copying when missing extends the merge by one name. */
  lemma CopiedStep(own: map<string, Value>, inherited: set<string>, source: map<string, Value>, names: seq<string>,
                   i: nat, props: map<string, Value>, added: seq<string>)
    requires i < |names| && Listed(names, source)
    requires props == Rewritten(own, inherited, Restrict(source, names[..i]))
    requires added == Absent(names[..i], own, inherited)
    ensures var n := names[i];
            (if n in props || n in inherited then (props, added) else (props[n := source[n]], added + [n]))
            == (Rewritten(own, inherited, Restrict(source, names[..i + 1])), Absent(names[..i + 1], own, inherited))
  {
    var n := names[i];
    AbsentSnoc(names, i, own, inherited);
    RewrittenStep(own, inherited, source, names, i);
    FreshName(own, inherited, source, names, i);
    if n in own || n in inherited {
      assert n in props || n in inherited;
      assert Rewritten(own, inherited, Restrict(source, names[..i + 1])) == props;
      assert added + [] == added;
      assert Absent(names[..i + 1], own, inherited) == added;
    } else {
      assert n !in props;
    }
  }

  /** The loop over all listed source names computes `Rewritten` and adds the names of `Absent`. */
  lemma CopiedIsRewritten(own: map<string, Value>, inherited: set<string>, source: map<string, Value>, names: seq<string>)
    requires Listed(names, source)
    ensures Copied(own, inherited, source, names) == (Rewritten(own, inherited, source), Absent(names, own, inherited))
  {
    CopiedPrefix(own, inherited, source, names, |names|);
    assert names[..|names|] == names;
    RestrictAll(source, names);
  }

  /** Each copied name was missing before, so an object that listed its properties once still does. */
  lemma {:induction false} CopiedKeepsListed(own: map<string, Value>, ownNames: seq<string>, inherited: set<string>, source: map<string, Value>, names: seq<string>)
    requires forall k :: 0 <= k < |names| ==> names[k] in source
    requires Listed(ownNames, own)
    ensures Listed(ownNames + Copied(own, inherited, source, names).1, Copied(own, inherited, source, names).0)
    decreases |names|
  {
    if names != [] {
      var before := Copied(own, inherited, source, names[..|names| - 1]);
      var n := names[|names| - 1];
      CopiedKeepsListed(own, ownNames, inherited, source, names[..|names| - 1]);
      if !(n in before.0 || n in inherited) {
        ListedAdd(ownNames + before.1, before.0, n, source[n]);
        assert ownNames + (before.1 + [n]) == (ownNames + before.1) + [n];
      }
    }
  }

  /** A source name not met before is in the merge so far only if `dest` had it. */
  lemma FreshName(own: map<string, Value>, inherited: set<string>, source: map<string, Value>, sourceNames: seq<string>, i: nat)
    requires i < |sourceNames| && Listed(sourceNames, source)
    ensures sourceNames[i] in source
    ensures sourceNames[i] in Rewritten(own, inherited, Restrict(source, sourceNames[..i])) <==> sourceNames[i] in own
  {
    var n := sourceNames[i];
    assert n !in sourceNames[..i] by {
      forall k | 0 <= k < i ensures sourceNames[..i][k] != n {
        assert sourceNames[k] != sourceNames[i];
      }
    }
  }

  /** Adding a new name with its property keeps every property listed once. */
  lemma ListedAdd(names: seq<string>, props: map<string, Value>, n: string, v: Value)
    requires Listed(names, props) && n !in props
    ensures Listed(names + [n], props[n := v])
  {
  }

  /**
   * `rewriteClass(source, dest)`: the own property names of `source` are read once, then each one
   * that `dest` has neither as its own nor by inheritance is assigned with the source's value;
   * `dest` itself is returned. The two may be the same object, in which case nothing changes.
   */
  method Rewrite(source: JsObject, dest: JsObject) returns (r: JsObject)
    requires source.Valid()
    modifies dest
    ensures r == dest
    ensures dest.props == Rewritten(old(dest.props), dest.inherited, old(source.props))
    ensures dest.names == old(dest.names) + Absent(old(source.names), old(dest.props), dest.inherited)
    ensures source.props == old(source.props) && source.names == old(source.names)
    ensures old(dest.Valid()) ==> dest.Valid()
  {
    var sourceNames := source.names;
    var sourceProps := source.props;
    ghost var ownBefore := dest.props;
    ghost var namesBefore := dest.names;
    ghost var wasValid := dest.Valid();
    ghost var inh := dest.inherited;
    assert forall k :: 0 <= k < |sourceNames| ==> sourceNames[k] in sourceProps;
    ghost var added: seq<string> := [];
    var i := 0;
    while i < |sourceNames|
      invariant 0 <= i <= |sourceNames|
      invariant (dest.props, added) == Copied(ownBefore, inh, sourceProps, sourceNames[..i])
      invariant dest.names == namesBefore + added
      invariant source != dest ==> source.props == sourceProps && source.names == sourceNames
    {
      var propertyName := sourceNames[i];
      assert sourceNames[..i + 1][..i] == sourceNames[..i];
      if !(propertyName in dest.props || propertyName in dest.inherited) {
        dest.props := dest.props[propertyName := sourceProps[propertyName]];
        dest.names := dest.names + [propertyName];
        added := added + [propertyName];
      }
      i := i + 1;
    }
    assert sourceNames[..i] == sourceNames;
    CopiedIsRewritten(ownBefore, inh, sourceProps, sourceNames);
    if wasValid {
      CopiedKeepsListed(ownBefore, namesBefore, inh, sourceProps, sourceNames);
    }
    if source == dest {
      RewriteSelf(ownBefore, inh);
      AbsentNone(sourceNames, ownBefore, inh, sourceProps);
    }
    r := dest;
  }

  /** Restricting to all listed names keeps every property. */
  lemma RestrictAll(source: map<string, Value>, names: seq<string>)
    requires Listed(names, source)
    ensures Restrict(source, names) == source
  {
  }

  lemma AbsentSnoc(names: seq<string>, i: nat, own: map<string, Value>, inherited: set<string>)
    requires i < |names|
    ensures Absent(names[..i + 1], own, inherited)
         == Absent(names[..i], own, inherited) + (if names[i] !in own && names[i] !in inherited then [names[i]] else [])
  {
    assert names[..i + 1] == names[..i] + [names[i]];
    AbsentConcat(names[..i], [names[i]], own, inherited);
  }

  lemma {:induction false} AbsentConcat(a: seq<string>, b: seq<string>, own: map<string, Value>, inherited: set<string>)
    ensures Absent(a + b, own, inherited) == Absent(a, own, inherited) + Absent(b, own, inherited)
    decreases |a|
  {
    if a == [] {
      assert a + b == b;
    } else {
      assert (a + b)[1..] == a[1..] + b;
      AbsentConcat(a[1..], b, own, inherited);
    }
  }
}
