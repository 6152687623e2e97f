/**
 * The archetype table (src/Archetype.cs, and its twin src/EntityArchetype.cs): dense
 * columnar storage for every entity with one exact set of component types.
 *
 * Entities are keyed by their integer id: Entity and EntityID both compare and hash by id
 * (see module Identity), so the source's dictionaries keyed by them are keyed by id.
 *
 * A table's state is the value `Table`, whose member methods are the table's operations:
 * each returns the table it leaves behind (the source's lists are edited in place; here
 * each edit computes the new columns, module Tables, and stores them back). The class
 * `Archetype` holds the same four fields and performs each operation on itself.
 */
module Archetypes {
  import opened Wrappers
  import opened Lists
  import opened Components
  import opened ComponentSets
  import opened Tables

  /**
   * filter: the table's component types, deduplicated, in the order they were given;
   * entityIndex: entity -> row; slotEntities: row -> entity; columns: one per filter type.
   */
  datatype Table = Table(filter: seq<TypeTag>, entityIndex: map<int, nat>, slotEntities: seq<int>,
                         columns: map<TypeTag, Column>)
  {
    ghost predicate Valid() {
      TableValid(filter, entityIndex, slotEntities, columns)
    }

    /** The table's logical contents: each entity's component values, by type. */
    ghost function Rows(): (rows: map<int, map<TypeTag, Value>>)
      requires Valid()
      ensures rows.Keys == entityIndex.Keys
    {
      TableRows(entityIndex, columns)
    }

    /** The entities with a row are those of the index. */
    lemma KeysOfRows(t: Table, x: int, row: map<TypeTag, Value>)
      requires Valid() && t.Valid() && t.Rows() == Rows()[x := row]
      ensures t.entityIndex.Keys == entityIndex.Keys + {x}
    {
      KeysUpdated(Rows(), t.Rows(), x, row);
    }

    /** The same, for a row removed. */
    lemma KeysOfRemoved(t: Table, x: int)
      requires Valid() && t.Valid() && t.Rows() == Rows() - {x}
      ensures t.entityIndex.Keys == entityIndex.Keys - {x}
    {
      assert t.Rows().Keys == Rows().Keys - {x};
    }

    /** Count: the number of entities, which is also the number of rows. */
    function Count(): (n: nat)
      requires Valid()
      ensures n == |slotEntities| && n == |Rows()|
    {
      assert |Rows()| == |Rows().Keys| == |entityIndex.Keys| == |entityIndex|;
      |entityIndex|
    }

    /** HasType: the type is one of the filter's, i.e. the table has a column for it. */
    predicate HasType(t: TypeTag)
      requires Valid()
      ensures HasType(t) <==> t in columns
    {
      t in filter
    }

    /** HasEntity: the entity has a row here. */
    predicate HasEntity(x: int)
      requires Valid()
      ensures HasEntity(x) <==> x in Rows()
    {
      x in entityIndex
    }

    /** GetEntities: every entity of the table exactly once. */
    function GetEntities(): (r: seq<int>)
      requires Valid()
      ensures |r| == Count() && NoDup(r)
      ensures forall x :: x in r <==> HasEntity(x)
    {
      slotEntities
    }

    /** GetComponentStorage<T>: the column holding T, found by scanning the filter, or null. */
    method GetComponentStorage(t: TypeTag) returns (r: Option<Column>)
      requires Valid()
      ensures r.Some? <==> t in columns
      ensures r.Some? ==> r.value == columns[t]
    {
      var i := 0;
      while i < |filter|
        invariant 0 <= i <= |filter|
        invariant forall k | 0 <= k < i :: filter[k] != t
      {
        if filter[i] == t {
          return Some(columns[t]);
        }
        i := i + 1;
      }
      return None;
    }

    /** GetComponents<T>: the values of T, one per row in row order, or null without a column. */
    method GetComponents(t: TypeTag) returns (r: Option<seq<Value>>)
      requires Valid()
      ensures r.Some? <==> HasType(t)
      ensures r.Some? ==> |r.value| == Count()
      ensures r.Some? ==> forall i | 0 <= i < |r.value| :: t in Rows()[slotEntities[i]] && r.value[i] == Rows()[slotEntities[i]][t]
    {
      var list := GetComponentStorage(t);
      if list.None? {
        return None;
      }
      var vs := seq(|list.value|, i requires 0 <= i < |list.value| => Value(t, list.value[i]));
      forall i | 0 <= i < |vs| ensures t in Rows()[slotEntities[i]] && vs[i] == Rows()[slotEntities[i]][t] {
        assert entityIndex[slotEntities[i]] == i;
        RowsLookup(entityIndex, slotEntities, columns, slotEntities[i], t);
      }
      return Some(vs);
    }

    /** GetComponent<T>: the entity's value of T; false and default(T) for an empty filter, an
        absent entity or a type outside the filter. */
    method GetComponent(x: int, t: TypeTag) returns (found: bool, v: Value)
      requires Valid()
      ensures found <==> HasEntity(x) && HasType(t)
      ensures found ==> v == Rows()[x][t]
      ensures !found ==> v == Default(t)
    {
      if |filter| == 0 || x !in entityIndex {
        return false, Default(t);
      }
      var index := entityIndex[x];
      var list := GetComponentStorage(t);
      if list.Some? {
        RowsLookup(entityIndex, slotEntities, columns, x, t);
        return true, Value(t, list.value[index]);
      }
      return false, Default(t);
    }

    /** GetComponent(entity, Type, out object): like GetComponent<T> but null on failure. A type
        outside a non-empty filter makes the dictionary lookup throw, so callers avoid it. */
    function GetComponentOfType(x: int, t: TypeTag): (r: Option<Value>)
      requires Valid()
      requires |filter| > 0 && HasEntity(x) ==> t in columns
      ensures r.Some? <==> HasEntity(x) && HasType(t)
      ensures r.Some? ==> r.value == Rows()[x][t] && r.value.ty == t
    {
      if |filter| == 0 || x !in entityIndex then None
      else
        RowsLookup(entityIndex, slotEntities, columns, x, t);
        Some(Value(t, columns[t][entityIndex[x]]))
    }

    /** SetComponent<T>: overwrites the entity's value of T; false with no change for an empty
        filter, an absent entity or a type outside the filter. */
    method SetComponent(x: int, t: TypeTag, v: Value) returns (r: Table, ok: bool)
      requires Valid() && v.ty == t
      ensures r.Valid() && r.filter == filter
      ensures ok <==> HasEntity(x) && HasType(t)
      ensures !ok ==> r == this
      ensures ok ==> r.entityIndex == entityIndex && r.slotEntities == slotEntities
      ensures ok ==> r.Rows() == Rows()[x := Rows()[x][t := v]]
    {
      if |filter| == 0 || x !in entityIndex {
        return this, false;
      }
      var index := entityIndex[x];
      var list := GetComponentStorage(t);
      if list.None? {
        return this, false;
      }
      SetCellRows(entityIndex, slotEntities, columns, x, t, v);
      SetCellValid(filter, entityIndex, slotEntities, columns, x, t, v.payload);
      return this.(columns := columns[t := list.value[index := v.payload]]), true;
    }

    /** SetComponent(entity, Type, object): as SetComponent<T>. A type outside a non-empty
        filter makes the lookup throw, and a value of another type makes the store throw. */
    method SetComponentOfType(x: int, t: TypeTag, v: Value) returns (r: Table, ok: bool)
      requires Valid()
      requires |filter| > 0 && HasEntity(x) ==> t in columns && v.ty == t
      ensures r.Valid() && r.filter == filter
      ensures ok <==> HasEntity(x) && |filter| > 0
      ensures !ok ==> r == this
      ensures ok ==> r.entityIndex == entityIndex && r.slotEntities == slotEntities
      ensures ok ==> r.Rows() == Rows()[x := Rows()[x][t := v]]
    {
      if |filter| == 0 || x !in entityIndex {
        return this, false;
      }
      var index := entityIndex[x];
      SetCellRows(entityIndex, slotEntities, columns, x, t, v);
      SetCellValid(filter, entityIndex, slotEntities, columns, x, t, v.payload);
      return this.(columns := columns[t := columns[t][index := v.payload]]), true;
    }

    /** AddEntity: a default value appended to every column, the entity at row Count();
        false with no change if the entity is already present. */
    method AddEntity(x: int) returns (r: Table, ok: bool)
      requires Valid()
      ensures r.Valid() && r.filter == filter
      ensures ok <==> !HasEntity(x)
      ensures !ok ==> r == this
      ensures ok ==> r.entityIndex == entityIndex[x := Count()] && r.slotEntities == slotEntities + [x]
      ensures ok ==> RowAppended(columns, DefaultRow(columns.Keys), r.columns)
      ensures ok ==> r.Rows() == Rows()[x := DefaultRow(columns.Keys)]
    {
      if x in entityIndex {
        return this, false;
      }
      var lists := AppendDefaults(columns);
      AppendRow(filter, entityIndex, slotEntities, columns, x, DefaultRow(columns.Keys), lists);
      return Table(filter, entityIndex[x := |entityIndex|], slotEntities + [x], lists), true;
    }

    /** SwapSets: exchanges rows a and b — their entities, every column's values, and the
        two index entries. Nothing happens when a == b. */
    method SwapSets(a: nat, b: nat) returns (r: Table)
      requires Valid() && a < |slotEntities| && b < |slotEntities|
      ensures r.Valid() && r.filter == filter
      ensures r.slotEntities == slotEntities[a := slotEntities[b]][b := slotEntities[a]]
      ensures r.entityIndex == entityIndex[slotEntities[a] := b][slotEntities[b] := a]
      ensures RowsSwapped(columns, a, b, r.columns)
    {
      if a == b {
        assert slotEntities[a := slotEntities[a]] == slotEntities;
        assert entityIndex[slotEntities[a] := a] == entityIndex;
        forall t | t in columns ensures columns[t][a := columns[t][a]] == columns[t] {
        }
        return this;
      }
      var entityA, entityB := slotEntities[a], slotEntities[b];
      var lists := SwapInColumns(filter, columns, a, b);
      SwapRowsValid(filter, entityIndex, slotEntities, columns, a, b, lists);
      var indexSwap := entityIndex[entityA];
      var index := entityIndex[entityA := entityIndex[entityB]];
      index := index[entityB := indexSwap];
      return Table(filter, index, slotEntities[a := entityB][b := entityA], lists);
    }

    /** RemoveEntity: moves the last row into the entity's row, then drops the last row from
        every column; false with no change if the entity is absent. */
    method RemoveEntity(x: int) returns (r: Table, ok: bool)
      requires Valid()
      ensures r.Valid() && r.filter == filter
      ensures ok <==> HasEntity(x)
      ensures !ok ==> r == this
      ensures ok ==> Removed(entityIndex, slotEntities, columns, x, r.entityIndex, r.slotEntities, r.columns)
      ensures ok ==> r.Rows() == Rows() - {x}
    {
      if x !in entityIndex {
        return this, false;
      }
      var swapped := SwapSets(entityIndex[x], |entityIndex| - 1);
      var index := |entityIndex| - 1;
      var lists := DropLastInColumns(swapped.columns, index);
      RemoveRow(filter, entityIndex, slotEntities, columns, x, swapped.columns, lists);
      RemovedRows(filter, entityIndex, slotEntities, columns, x,
                  swapped.entityIndex - {x}, swapped.slotEntities[..index], lists);
      return Table(filter, swapped.entityIndex - {x}, swapped.slotEntities[..index], lists), true;
    }

    /** ExtractEntity: the entity's values in filter order, each paired with its filter type,
        then RemoveEntity; no bag and no change if the entity is absent. */
    method ExtractEntity(x: int) returns (r: Table, bag: Option<ComponentSet>)
      requires Valid()
      ensures r.Valid() && r.filter == filter
      ensures bag.Some? <==> HasEntity(x)
      ensures bag.None? ==> r == this
      ensures bag.Some? ==> bag.value.types == filter && WellFormed(bag.value)
      ensures bag.Some? ==> forall k | 0 <= k < |filter| :: bag.value.components[k] == Rows()[x][filter[k]]
      ensures bag.Some? ==> Removed(entityIndex, slotEntities, columns, x, r.entityIndex, r.slotEntities, r.columns)
      ensures bag.Some? ==> r.Rows() == Rows() - {x}
    {
      if x !in entityIndex {
        return this, None;
      }
      var components := ReadRow(filter, columns, entityIndex[x]);
      var removed;
      r, removed := RemoveEntity(x);
      return r, Some(ComponentSet(components, filter));
    }

    /** ExtractAndRemoveEntity (src/EntityArchetype.cs): as ExtractEntity, but only the values,
        in filter order. */
    method ExtractAndRemoveEntity(x: int) returns (r: Table, vals: Option<seq<Value>>)
      requires Valid()
      ensures r.Valid() && r.filter == filter
      ensures vals.Some? <==> HasEntity(x)
      ensures vals.None? ==> r == this
      ensures vals.Some? ==> RuntimeTypes(vals.value) == filter
      ensures vals.Some? ==> forall k | 0 <= k < |filter| :: vals.value[k] == Rows()[x][filter[k]]
      ensures vals.Some? ==> Removed(entityIndex, slotEntities, columns, x, r.entityIndex, r.slotEntities, r.columns)
      ensures vals.Some? ==> r.Rows() == Rows() - {x}
    {
      if x !in entityIndex {
        return this, None;
      }
      var components := ReadRow(filter, columns, entityIndex[x]);
      var removed;
      r, removed := RemoveEntity(x);
      return r, Some(components);
    }

    /** What InjectEntity can store without throwing: a type for every value and, unless the
        filter is empty, each type one of the filter's and equal to its value's runtime type. */
    predicate Accepts(bag: ComponentSet) {
      && |bag.components| <= |bag.types|
      && (|filter| > 0 ==>
            forall i | 0 <= i < |bag.components| :: bag.types[i] in filter && bag.components[i].ty == bag.types[i])
    }

    /** InjectEntity: AddEntity, then SetComponent(Types[i], Components[i]) for every entry in
        order; false with no change if the entity is present. */
    method InjectEntity(x: int, bag: ComponentSet) returns (r: Table, ok: bool)
      requires Valid()
      requires !HasEntity(x) ==> Accepts(bag)
      ensures r.Valid() && r.filter == filter
      ensures ok <==> !HasEntity(x)
      ensures !ok ==> r == this
      ensures ok ==> r.entityIndex == entityIndex[x := Count()] && r.slotEntities == slotEntities + [x]
      ensures ok ==> RowAppended(columns, WrittenRow(columns.Keys, bag), r.columns)
      ensures ok ==> r.Rows() == Rows()[x := WrittenRow(columns.Keys, bag)]
    {
      var added;
      added, ok := AddEntity(x);
      if !ok {
        return this, false;
      }
      var last := |added.slotEntities| - 1;
      var lists := WriteEntries(added.columns, last, bag.types, bag.components);
      InjectRow(columns, added.columns, last, bag, lists);
      AppendRow(filter, entityIndex, slotEntities, columns, x, WrittenRow(columns.Keys, bag), lists);
      return added.(columns := lists), true;
    }

    /** AddAndPopulateEntity (src/EntityArchetype.cs): AddEntity, then each value is written to
        the column of its own runtime type. */
    method AddAndPopulateEntity(x: int, components: seq<Value>) returns (r: Table, ok: bool)
      requires Valid()
      requires !HasEntity(x) && |filter| > 0 ==> forall i | 0 <= i < |components| :: components[i].ty in filter
      ensures r.Valid() && r.filter == filter
      ensures ok <==> !HasEntity(x)
      ensures !ok ==> r == this
      ensures ok ==> r.entityIndex == entityIndex[x := Count()] && r.slotEntities == slotEntities + [x]
      ensures ok ==> RowAppended(columns, WrittenRow(columns.Keys, ComponentSet(components, RuntimeTypes(components))), r.columns)
      ensures ok ==> r.Rows() == Rows()[x := WrittenRow(columns.Keys, ComponentSet(components, RuntimeTypes(components)))]
    {
      r, ok := InjectEntity(x, ComponentSet(components, RuntimeTypes(components)));
    }

    /** ExtractEntity, then InjectEntity of the extracted bag into the same table: the entity
        is back with every value it had, so the table holds the same rows and count as before. */
    method ExtractThenInject(x: int) returns (r: Table)
      requires Valid() && HasEntity(x)
      ensures r.Valid() && r.filter == filter
      ensures r.Rows() == Rows() && r.Count() == Count()
    {
      var left, bag := ExtractEntity(x);
      var row := Rows()[x];
      ExtractedBagRestoresRow(filter, row, bag.value);
      assert left.Accepts(bag.value);
      var ok;
      r, ok := left.InjectEntity(x, bag.value);
      Restored(Rows(), x, r.Rows());
    }

    /** ExtractAndRemoveEntity, then AddAndPopulateEntity of the extracted values into the same
        table: the same round trip on the validating table. */
    method ExtractThenPopulate(x: int) returns (r: Table)
      requires Valid() && HasEntity(x)
      ensures r.Valid() && r.filter == filter
      ensures r.Rows() == Rows() && r.Count() == Count()
    {
      var left, vals := ExtractAndRemoveEntity(x);
      var row := Rows()[x];
      ExtractedBagRestoresRow(filter, row, ComponentSet(vals.value, RuntimeTypes(vals.value)));
      assert forall i | 0 <= i < |vals.value| :: vals.value[i].ty in filter by {
        forall i | 0 <= i < |vals.value| ensures vals.value[i].ty in filter {
          assert RuntimeTypes(vals.value)[i] == vals.value[i].ty;
        }
      }
      var ok;
      r, ok := left.AddAndPopulateEntity(x, vals.value);
      Restored(Rows(), x, r.Rows());
    }
  }

  /** A map updated at x has x among its keys, and no other new one. */
  lemma KeysUpdated<K, V>(m: map<K, V>, m': map<K, V>, x: K, v: V)
    requires m' == m[x := v]
    ensures m'.Keys == m.Keys + {x}
  {
  }

  /** Putting an entity's own row back after removing it gives the rows that were there. */
  lemma Restored(rows: map<int, map<TypeTag, Value>>, x: int, rows': map<int, map<TypeTag, Value>>)
    requires x in rows && rows' == (rows - {x})[x := rows[x]]
    ensures rows' == rows
  {
    assert rows'.Keys == rows.Keys;
  }

  /** new Archetype(filter): one empty column per type. A repeated type makes the source's
      Dictionary.Add throw, so callers supply distinct types. */
  method NewArchetype(types: seq<TypeTag>) returns (r: Table)
    requires NoDup(types)
    ensures r.Valid() && r.filter == types && r.entityIndex == map[] && r.slotEntities == []
    ensures r.columns.Keys == Elements(types) && forall t | t in r.columns :: r.columns[t] == []
    ensures r.Rows() == map[]
  {
    DistinctOfNoDup(types);
    var lists := EmptyColumns(types);
    return Table(Distinct(types), map[], [], lists);
  }

  /** new EntityArchetype(filter) (src/EntityArchetype.cs): the same table, but a filter naming
      a type that is not a non-primitive value type makes the constructor throw. */
  method NewEntityArchetype(types: seq<TypeTag>) returns (r: Result<Table, Error>)
    requires NoDup(types)
    ensures r.Failure? <==> exists t | t in types :: !IsComponentType(t)
    ensures r.Failure? ==> r.error == NotComponentTypes
    ensures r.Success? ==> r.value.Valid() && r.value.filter == types
    ensures r.Success? ==> r.value.entityIndex == map[] && r.value.slotEntities == []
  {
    if exists t | t in types :: !IsComponentType(t) {
      return Failure(NotComponentTypes);
    }
    var table := NewArchetype(types);
    return Success(table);
  }

  /** An Archetype object: the table's state held in fields and edited in place. Its queries
      are those of State(). */
  class Archetype {
    const filter: seq<TypeTag>
    var entityIndex: map<int, nat>
    var slotEntities: seq<int>
    var columns: map<TypeTag, Column>

    /** The object's current table. */
    function State(): Table
      reads this
    {
      Table(filter, entityIndex, slotEntities, columns)
    }

    ghost predicate Valid()
      reads this
    {
      State().Valid()
    }

    constructor (types: seq<TypeTag>)
      requires NoDup(types)
      ensures Valid() && filter == types && entityIndex == map[] && slotEntities == []
      ensures State().Rows() == map[]
    {
      var t := NewArchetype(types);
      filter, entityIndex, slotEntities, columns := t.filter, t.entityIndex, t.slotEntities, t.columns;
    }

    /** Stores a table of the same filter as the object's new state. */
    method Store(t: Table)
      requires t.filter == filter
      modifies this
      ensures State() == t
    {
      entityIndex, slotEntities, columns := t.entityIndex, t.slotEntities, t.columns;
    }

    method SetComponent(x: int, t: TypeTag, v: Value) returns (ok: bool)
      requires Valid() && v.ty == t
      modifies this
      ensures Valid()
      ensures ok <==> old(State().HasEntity(x)) && State().HasType(t)
      ensures !ok ==> State() == old(State())
      ensures ok ==> entityIndex == old(entityIndex) && slotEntities == old(slotEntities)
      ensures ok ==> State().Rows() == old(State().Rows())[x := old(State().Rows())[x][t := v]]
    {
      var next;
      next, ok := State().SetComponent(x, t, v);
      Store(next);
    }

    method SetComponentOfType(x: int, t: TypeTag, v: Value) returns (ok: bool)
      requires Valid()
      requires |filter| > 0 && State().HasEntity(x) ==> t in columns && v.ty == t
      modifies this
      ensures Valid()
      ensures ok <==> old(State().HasEntity(x)) && |filter| > 0
      ensures !ok ==> State() == old(State())
      ensures ok ==> entityIndex == old(entityIndex) && slotEntities == old(slotEntities)
      ensures ok ==> State().Rows() == old(State().Rows())[x := old(State().Rows())[x][t := v]]
    {
      var next;
      next, ok := State().SetComponentOfType(x, t, v);
      Store(next);
    }

    method AddEntity(x: int) returns (ok: bool)
      requires Valid()
      modifies this
      ensures Valid()
      ensures ok <==> !old(State().HasEntity(x))
      ensures !ok ==> State() == old(State())
      ensures ok ==> entityIndex == old(entityIndex)[x := old(State().Count())] && slotEntities == old(slotEntities) + [x]
      ensures ok ==> RowAppended(old(columns), DefaultRow(old(columns).Keys), columns)
    {
      var next;
      next, ok := State().AddEntity(x);
      Store(next);
    }

    method SwapSets(a: nat, b: nat)
      requires Valid() && a < |slotEntities| && b < |slotEntities|
      modifies this
      ensures Valid()
      ensures slotEntities == old(slotEntities)[a := old(slotEntities)[b]][b := old(slotEntities)[a]]
      ensures entityIndex == old(entityIndex)[old(slotEntities)[a] := b][old(slotEntities)[b] := a]
      ensures RowsSwapped(old(columns), a, b, columns)
    {
      var next := State().SwapSets(a, b);
      Store(next);
    }

    method RemoveEntity(x: int) returns (ok: bool)
      requires Valid()
      modifies this
      ensures Valid()
      ensures ok <==> old(State().HasEntity(x))
      ensures !ok ==> State() == old(State())
      ensures ok ==> Removed(old(entityIndex), old(slotEntities), old(columns), x, entityIndex, slotEntities, columns)
    {
      var next;
      next, ok := State().RemoveEntity(x);
      Store(next);
    }

    method ExtractEntity(x: int) returns (bag: Option<ComponentSet>)
      requires Valid()
      modifies this
      ensures Valid()
      ensures bag.Some? <==> old(State().HasEntity(x))
      ensures bag.None? ==> State() == old(State())
      ensures bag.Some? ==> bag.value.types == filter && WellFormed(bag.value)
      ensures bag.Some? ==> forall k | 0 <= k < |filter| :: bag.value.components[k] == old(State().Rows())[x][filter[k]]
      ensures bag.Some? ==> Removed(old(entityIndex), old(slotEntities), old(columns), x, entityIndex, slotEntities, columns)
    {
      var next;
      next, bag := State().ExtractEntity(x);
      Store(next);
    }

    method ExtractAndRemoveEntity(x: int) returns (vals: Option<seq<Value>>)
      requires Valid()
      modifies this
      ensures Valid()
      ensures vals.Some? <==> old(State().HasEntity(x))
      ensures vals.None? ==> State() == old(State())
      ensures vals.Some? ==> RuntimeTypes(vals.value) == filter
      ensures vals.Some? ==> forall k | 0 <= k < |filter| :: vals.value[k] == old(State().Rows())[x][filter[k]]
      ensures vals.Some? ==> Removed(old(entityIndex), old(slotEntities), old(columns), x, entityIndex, slotEntities, columns)
    {
      var next;
      next, vals := State().ExtractAndRemoveEntity(x);
      Store(next);
    }

    method InjectEntity(x: int, bag: ComponentSet) returns (ok: bool)
      requires Valid()
      requires !State().HasEntity(x) ==> State().Accepts(bag)
      modifies this
      ensures Valid()
      ensures ok <==> !old(State().HasEntity(x))
      ensures !ok ==> State() == old(State())
      ensures ok ==> entityIndex == old(entityIndex)[x := old(State().Count())] && slotEntities == old(slotEntities) + [x]
      ensures ok ==> RowAppended(old(columns), WrittenRow(old(columns).Keys, bag), columns)
    {
      var next;
      next, ok := State().InjectEntity(x, bag);
      Store(next);
    }

    method AddAndPopulateEntity(x: int, components: seq<Value>) returns (ok: bool)
      requires Valid()
      requires !State().HasEntity(x) && |filter| > 0 ==> forall i | 0 <= i < |components| :: components[i].ty in filter
      modifies this
      ensures Valid()
      ensures ok <==> !old(State().HasEntity(x))
      ensures !ok ==> State() == old(State())
      ensures ok ==> entityIndex == old(entityIndex)[x := old(State().Count())] && slotEntities == old(slotEntities) + [x]
      ensures ok ==> RowAppended(old(columns), WrittenRow(old(columns).Keys, ComponentSet(components, RuntimeTypes(components))), columns)
    {
      var next;
      next, ok := State().AddAndPopulateEntity(x, components);
      Store(next);
    }
  }
}
