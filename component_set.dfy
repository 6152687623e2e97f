/**
 * The transfer bag (src/ComponentSet.cs): parallel lists of boxed values and their types,
 * alive only while an entity moves from one table to another.
 */
module ComponentSets {
  import opened Wrappers
  import opened Lists
  import opened Components

  datatype ComponentSet = ComponentSet(components: seq<Value>, types: seq<TypeTag>)

  /** The two lists are parallel and Types[i] is the runtime type of Components[i]. */
  predicate WellFormed(bag: ComponentSet) {
    && |bag.types| == |bag.components|
    && forall i | 0 <= i < |bag.types| :: bag.types[i] == bag.components[i].ty
  }

  /** `components.Select(x => x.GetType())`. */
  function RuntimeTypes(vs: seq<Value>): (r: seq<TypeTag>)
    ensures |r| == |vs|
    ensures forall i | 0 <= i < |vs| :: r[i] == vs[i].ty
  {
    if |vs| == 0 then [] else [vs[0].ty] + RuntimeTypes(vs[1..])
  }

  /** The arguments of From are arbitrary object references; None is null. */
  datatype FromError = NullComponent

  /** ComponentSet.From: refuses a null entry, otherwise copies the array and records each
      element's runtime type. */
  function From(objects: seq<Option<Value>>): (r: Result<ComponentSet, FromError>)
    ensures r.Failure? <==> exists i | 0 <= i < |objects| :: objects[i].None?
    ensures r.Success? ==> WellFormed(r.value)
    ensures r.Success? ==> |r.value.components| == |objects|
    ensures r.Success? ==> forall i | 0 <= i < |objects| :: objects[i] == Some(r.value.components[i])
  {
    if exists i | 0 <= i < |objects| :: objects[i].None? then Failure(NullComponent)
    else
      var vs := seq(|objects|, i requires 0 <= i < |objects| => objects[i].value);
      Success(ComponentSet(vs, RuntimeTypes(vs)))
  }

  /** set.Components.Add(v); set.Types.Add(t) — what AddComponent does to a bag. */
  function Append(bag: ComponentSet, t: TypeTag, v: Value): ComponentSet {
    ComponentSet(bag.components + [v], bag.types + [t])
  }

  /** set.Components.RemoveAt(i); set.Types.RemoveAt(i) — what RemoveComponent does. */
  function RemoveEntry(bag: ComponentSet, i: nat): ComponentSet
    requires i < |bag.components| && i < |bag.types|
  {
    ComponentSet(RemoveAt(bag.components, i), RemoveAt(bag.types, i))
  }

  /** Appending a value under its own type keeps the bag well formed. */
  lemma AppendKeepsWellFormed(bag: ComponentSet, v: Value)
    requires WellFormed(bag)
    ensures WellFormed(Append(bag, v.ty, v))
  {
  }

  /** Removing an index from both lists keeps them parallel. */
  lemma RemoveEntryKeepsWellFormed(bag: ComponentSet, i: nat)
    requires WellFormed(bag) && i < |bag.types|
    ensures WellFormed(RemoveEntry(bag, i))
  {
  }

  /**
   * The value a column ends with when a fresh row starting at `d` receives
   * SetComponent(types[i], vals[i]) for i = 0, 1, ... in order: the last write wins.
   */
  function LastWrite(types: seq<TypeTag>, vals: seq<Value>, t: TypeTag, d: Value): Value
    requires |vals| <= |types|
  {
    if |vals| == 0 then d
    else if types[|vals| - 1] == t then vals[|vals| - 1]
    else LastWrite(types, vals[..|vals| - 1], t, d)
  }

  /** When every write aimed at t carries a value of type t, so does the last one. */
  lemma {:induction false} LastWriteTyped(types: seq<TypeTag>, vals: seq<Value>, t: TypeTag, d: Value)
    requires |vals| <= |types| && d.ty == t
    requires forall i | 0 <= i < |vals| && types[i] == t :: vals[i].ty == t
    ensures LastWrite(types, vals, t, d).ty == t
  {
    if |vals| > 0 && types[|vals| - 1] != t {
      LastWriteTyped(types, vals[..|vals| - 1], t, d);
    }
  }

  /** What InjectEntity stores in column t for this bag. */
  function Written(bag: ComponentSet, t: TypeTag): Value
    requires |bag.components| <= |bag.types|
  {
    LastWrite(bag.types, bag.components, t, Default(t))
  }

  /** The row InjectEntity gives a new entity of a table with these types: per type, the
      last value in the bag written to it. */
  function WrittenRow(types: set<TypeTag>, bag: ComponentSet): (row: map<TypeTag, Value>)
    requires |bag.components| <= |bag.types|
    ensures row.Keys == types
  {
    map t | t in types :: Written(bag, t)
  }

  /** A type that names no written entry keeps the default. */
  lemma {:induction false} LastWriteUntouched(types: seq<TypeTag>, vals: seq<Value>, t: TypeTag, d: Value)
    requires |vals| <= |types|
    requires forall i | 0 <= i < |vals| :: types[i] != t
    ensures LastWrite(types, vals, t, d) == d
  {
    if |vals| > 0 {
      LastWriteUntouched(types, vals[..|vals| - 1], t, d);
    }
  }

  /** With no repeated type, the column named types[i] receives exactly vals[i]. */
  lemma {:induction false} LastWriteOfDistinct(types: seq<TypeTag>, vals: seq<Value>, i: nat, d: Value)
    requires NoDup(types) && |vals| == |types| && i < |types|
    ensures LastWrite(types, vals, types[i], d) == vals[i]
  {
    LastWritePrefix(types, vals, |vals|, i, d);
    assert vals[..|vals|] == vals;
  }

  lemma {:induction false} LastWritePrefix(types: seq<TypeTag>, vals: seq<Value>, n: nat, i: nat, d: Value)
    requires NoDup(types) && |vals| <= |types| && i < n <= |vals|
    ensures LastWrite(types, vals[..n], types[i], d) == vals[i]
  {
    if i < n - 1 {
      assert types[n - 1] != types[i];
      assert vals[..n][..n - 1] == vals[..n - 1];
      LastWritePrefix(types, vals, n - 1, i, d);
    }
  }

  /**
   * Round trip of the transfer bag: a bag that lists every type of a row once, with the
   * row's values in the same order, writes back exactly that row.
   */
  lemma ExtractedBagRestoresRow(filter: seq<TypeTag>, row: map<TypeTag, Value>, bag: ComponentSet)
    requires NoDup(filter) && row.Keys == Elements(filter)
    requires bag.types == filter && |bag.components| == |filter|
    requires forall k | 0 <= k < |filter| :: bag.components[k] == row[filter[k]]
    ensures WrittenRow(row.Keys, bag) == row
  {
    forall t | t in row ensures Written(bag, t) == row[t] {
      var k :| 0 <= k < |filter| && filter[k] == t;
      LastWriteOfDistinct(filter, bag.components, k, Default(t));
    }
  }
  /** `components.Select(x => x.GetType())` after Add. */
  lemma RuntimeTypesAppend(vs: seq<Value>, v: Value)
    ensures RuntimeTypes(vs + [v]) == RuntimeTypes(vs) + [v.ty]
  {
  }

  /** `components.Select(x => x.GetType())` after RemoveAt. */
  lemma RuntimeTypesRemoveAt(vs: seq<Value>, i: nat)
    requires i < |vs|
    ensures RuntimeTypes(RemoveAt(vs, i)) == RemoveAt(RuntimeTypes(vs), i)
  {
  }

  /**
   * AddComponent's bag: the bag extracted from a row, with one more entry for a type the row
   * does not have, writes the row with that type added.
   */
  lemma AppendedBagWritesRow(filter: seq<TypeTag>, row: map<TypeTag, Value>, bag: ComponentSet, t: TypeTag, v: Value,
                             keys: set<TypeTag>)
    requires NoDup(filter) && row.Keys == Elements(filter)
    requires bag.types == filter && |bag.components| == |filter|
    requires forall k | 0 <= k < |filter| :: bag.components[k] == row[filter[k]]
    requires t !in row && keys == row.Keys + {t}
    ensures WrittenRow(keys, Append(bag, t, v)) == row[t := v]
  {
    NoDupAppend(filter, t);
    var filter', row', bag' := filter + [t], row[t := v], Append(bag, t, v);
    assert forall k | 0 <= k < |filter'| :: bag'.components[k] == row'[filter'[k]] by {
      forall k | 0 <= k < |filter'| ensures bag'.components[k] == row'[filter'[k]] {
        if k < |filter| {
          assert filter'[k] == filter[k] && filter[k] != t;
        }
      }
    }
    ExtractedBagRestoresRow(filter', row', bag');
  }

  /**
   * RemoveComponent's bag: the bag extracted from a row, with entry i removed from both
   * lists, writes the row without that entry's type.
   */
  lemma RemovedBagWritesRow(filter: seq<TypeTag>, row: map<TypeTag, Value>, bag: ComponentSet, i: nat,
                            keys: set<TypeTag>)
    requires NoDup(filter) && row.Keys == Elements(filter)
    requires bag.types == filter && |bag.components| == |filter|
    requires forall k | 0 <= k < |filter| :: bag.components[k] == row[filter[k]]
    requires i < |filter| && keys == row.Keys - {filter[i]}
    ensures WrittenRow(keys, RemoveEntry(bag, i)) == row - {filter[i]}
  {
    RemoveAtOfNoDup(filter, i);
    var filter', row', bag' := RemoveAt(filter, i), row - {filter[i]}, RemoveEntry(bag, i);
    assert forall k | 0 <= k < |filter'| :: bag'.components[k] == row'[filter'[k]] by {
      forall k | 0 <= k < |filter'| ensures bag'.components[k] == row'[filter'[k]] {
        var k' := if k < i then k else k + 1;
        assert filter'[k] == filter[k'] && bag'.components[k] == bag.components[k'];
        assert filter[k'] != filter[i];
      }
    }
    ExtractedBagRestoresRow(filter', row', bag');
  }
}
