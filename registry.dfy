/**
 * The directory's five structures on values (src/ArchetypeManager.cs:14-28,
 * src/EntityComponentManager.cs:14-30, SilverECS.Core/src/ECManager.cs:12-24): the tables,
 * type -> tables, the id counter, the live entities and entity -> table.
 *
 * The source holds its tables in a HashSet of objects and names them by reference. Here the
 * tables are a sequence in registration order and a table is named by its position; the
 * empty table, created first, is position 0. The invariant is split in two: `Interned`
 * constrains the filters and the type index, `Placed` the entities, so that an edit of one
 * table (which keeps its filter) only touches `Placed`.
 */
module Registries {
  import opened Lists
  import opened Components
  import opened Tables
  import opened Archetypes
  import opened Identity
  import opened Wrappers
  import opened ComponentSets

  /** src/EntityParent.cs: a component type whose value is the parent entity's id. */
  const ParentType: TypeTag := TypeTag(0, true, false)

  /** The filter of each table, in registration order. */
  function Filters(tables: seq<Table>): (fs: seq<seq<TypeTag>>)
    ensures |fs| == |tables| && forall i | 0 <= i < |tables| :: fs[i] == tables[i].filter
  {
    seq(|tables|, i requires 0 <= i < |tables| => tables[i].filter)
  }

  /** The entities of each table, in registration order. */
  ghost function Members(tables: seq<Table>): (ms: seq<set<int>>)
    ensures |ms| == |tables| && forall i | 0 <= i < |tables| :: ms[i] == tables[i].entityIndex.Keys
  {
    seq(|tables|, i requires 0 <= i < |tables| => tables[i].entityIndex.Keys)
  }

  ghost predicate AllValid(tables: seq<Table>) {
    forall i | 0 <= i < |tables| :: tables[i].Valid()
  }

  /**
   * The tables' filters: the first is empty, no two name the same set of types, the type
   * index lists exactly the tables naming each type, and (for validating tables) every type
   * is a component type.
   */
  ghost predicate Interned(fs: seq<seq<TypeTag>>, archetypeMap: map<TypeTag, set<nat>>, validatesTypes: bool) {
    && |fs| > 0 && fs[0] == []
    && (forall i, j | 0 <= i < j < |fs| :: Elements(fs[i]) != Elements(fs[j]))
    && (forall i, t | 0 <= i < |fs| && t in fs[i] :: t in archetypeMap && i in archetypeMap[t])
    && (forall t, i | t in archetypeMap && i in archetypeMap[t] :: i < |fs| && t in fs[i])
    && (validatesTypes ==> forall i, t | 0 <= i < |fs| && t in fs[i] :: IsComponentType(t))
  }

  /**
   * The entities: the live set is the entity map's key set, each live entity is a member of
   * exactly its mapped table, and every id lies strictly between Null.ID and the counter.
   */
  ghost predicate Placed(ms: seq<set<int>>, entities: set<int>, entityToArchetype: map<int, nat>, nextEntityID: int) {
    && entities == entityToArchetype.Keys
    && (forall x | x in entityToArchetype :: entityToArchetype[x] < |ms| && x in ms[entityToArchetype[x]])
    && (forall i, x | 0 <= i < |ms| && x in ms[i] :: x in entityToArchetype && entityToArchetype[x] == i)
    && (forall x | x in entities :: NullId < x < nextEntityID)
    && NullId < nextEntityID
  }

  /** The component values of a placed entity, by type. */
  ghost function RowOfEntity(tables: seq<Table>, entityToArchetype: map<int, nat>, x: int): map<TypeTag, Value> {
    if x in entityToArchetype && entityToArchetype[x] < |tables| && tables[entityToArchetype[x]].Valid()
       && x in tables[entityToArchetype[x]].entityIndex
    then tables[entityToArchetype[x]].Rows()[x]
    else map[]
  }

  /** tables' is tables, or tables with one more table at the end, and that one empty. */
  ghost predicate Grown(tables: seq<Table>, tables': seq<Table>) {
    || tables' == tables
    || (|tables'| == |tables| + 1 && tables'[..|tables|] == tables && tables'[|tables|].entityIndex == map[])
  }

  /** The tables and type index after GetOrCreateArchetype: still valid and interned, and
      grown by at most one empty table. */
  ghost predicate Extended(tables: seq<Table>, tables': seq<Table>, m': map<TypeTag, set<nat>>, validatesTypes: bool) {
    AllValid(tables') && Interned(Filters(tables'), m', validatesTypes) && Grown(tables, tables')
  }

  lemma FiltersReplaced(tables: seq<Table>, k: nat, t: Table)
    requires k < |tables| && t.filter == tables[k].filter
    ensures Filters(tables[k := t]) == Filters(tables)
  {
  }

  lemma MembersReplaced(tables: seq<Table>, k: nat, t: Table)
    requires k < |tables|
    ensures Members(tables[k := t]) == Members(tables)[k := t.entityIndex.Keys]
  {
  }

  lemma ValidReplaced(tables: seq<Table>, k: nat, t: Table)
    requires AllValid(tables) && k < |tables| && t.Valid()
    ensures AllValid(tables[k := t])
  {
  }

  lemma FiltersAppended(tables: seq<Table>, t: Table)
    ensures Filters(tables + [t]) == Filters(tables) + [t.filter]
  {
  }

  lemma MembersAppended(tables: seq<Table>, t: Table)
    ensures Members(tables + [t]) == Members(tables) + [t.entityIndex.Keys]
  {
  }

  /** When x leaves its table, the rest stay placed. */
  lemma PlacedLeft(ms: seq<set<int>>, entities: set<int>, e2a: map<int, nat>, next: int, x: int)
    requires Placed(ms, entities, e2a, next) && x in entities
    ensures Placed(ms[e2a[x] := ms[e2a[x]] - {x}], entities - {x}, e2a - {x}, next)
  {
  }

  /** A fresh id below the counter joins table k. */
  lemma PlacedJoined(ms: seq<set<int>>, entities: set<int>, e2a: map<int, nat>, next: int, x: int, k: nat)
    requires Placed(ms, entities, e2a, next) && x !in entities && NullId < x < next && k < |ms|
    ensures Placed(ms[k := ms[k] + {x}], entities + {x}, e2a[x := k], next)
  {
  }

  /** An empty table appended at the end holds nobody. */
  lemma PlacedAppended(ms: seq<set<int>>, entities: set<int>, e2a: map<int, nat>, next: int)
    requires Placed(ms, entities, e2a, next)
    ensures Placed(ms + [{}], entities, e2a, next)
  {
  }

  /** When x leaves table k, every other entity keeps its row. */
  lemma RowsLeft(tables: seq<Table>, e2a: map<int, nat>, x: int, t: Table, y: int)
    requires AllValid(tables) && x in e2a && e2a[x] < |tables|
    requires forall z | z in e2a :: e2a[z] < |tables| && z in tables[e2a[z]].entityIndex
    requires t.Valid() && t.Rows() == tables[e2a[x]].Rows() - {x}
    requires y in e2a && y != x
    ensures AllValid(tables[e2a[x] := t])
    ensures y in tables[e2a[x] := t][e2a[y]].entityIndex
    ensures RowOfEntity(tables[e2a[x] := t], e2a - {x}, y) == RowOfEntity(tables, e2a, y)
  {
    ValidReplaced(tables, e2a[x], t);
    var i := e2a[y];
    assert (e2a - {x})[y] == i;
    if i == e2a[x] {
      KeptByRemoval(tables[i].Rows(), t.Rows(), x, y);
      assert tables[e2a[x] := t][i] == t;
    } else {
      assert tables[e2a[x] := t][i] == tables[i];
    }
    RowAt(tables[e2a[x] := t], e2a - {x}, y);
    RowAt(tables, e2a, y);
  }

  /** When table k changes only in x's row (x new or not), every other entity keeps its row. */
  lemma RowsWritten(tables: seq<Table>, e2a: map<int, nat>, k: nat, x: int, row: map<TypeTag, Value>, t: Table, y: int)
    requires AllValid(tables) && k < |tables|
    requires forall z | z in e2a :: e2a[z] < |tables| && z in tables[e2a[z]].entityIndex
    requires t.Valid() && t.Rows() == tables[k].Rows()[x := row]
    requires y in e2a && y != x
    ensures AllValid(tables[k := t])
    ensures y in tables[k := t][e2a[y]].entityIndex
    ensures RowOfEntity(tables[k := t], e2a[x := k], y) == RowOfEntity(tables, e2a, y)
  {
    ValidReplaced(tables, k, t);
    var i := e2a[y];
    assert e2a[x := k][y] == i;
    if i == k {
      KeptByUpdate(tables[k].Rows(), t.Rows(), x, row, y);
      assert tables[k := t][i] == t;
    } else {
      assert tables[k := t][i] == tables[i];
    }
    RowAt(tables[k := t], e2a[x := k], y);
    RowAt(tables, e2a, y);
  }

  /** A placed entity's row is its row in its table. */
  lemma RowAt(tables: seq<Table>, e2a: map<int, nat>, y: int)
    requires y in e2a && e2a[y] < |tables| && tables[e2a[y]].Valid() && y in tables[e2a[y]].entityIndex
    ensures RowOfEntity(tables, e2a, y) == tables[e2a[y]].Rows()[y]
  {
  }

  /** A map without x keeps every other key's value. */
  lemma KeptByRemoval<K, V>(m: map<K, V>, m': map<K, V>, x: K, y: K)
    requires m' == m - {x} && y in m && y != x
    ensures y in m' && m'[y] == m[y]
  {
  }

  /** A map updated at x keeps every other key's value. */
  lemma KeptByUpdate<K, V>(m: map<K, V>, m': map<K, V>, x: K, v: V, y: K)
    requires m' == m[x := v] && y in m && y != x
    ensures y in m' && m'[y] == m[y]
  {
  }

  /** The tables' state together with the entities'. */
  datatype Registry = Registry(archetypes: seq<Table>, archetypeMap: map<TypeTag, set<nat>>, nextEntityID: int,
                               entities: set<int>, entityToArchetype: map<int, nat>)
  {
    ghost predicate Valid(validatesTypes: bool) {
      && AllValid(archetypes)
      && Interned(Filters(archetypes), archetypeMap, validatesTypes)
      && Placed(Members(archetypes), entities, entityToArchetype, nextEntityID)
    }

    /** A live entity's component values, by type. */
    ghost function Row(x: int): map<TypeTag, Value> {
      RowOfEntity(archetypes, entityToArchetype, x)
    }

    /** The registry after x, live, left its table, which became t. */
    function Leave(x: int, t: Table): Registry
      requires x in entityToArchetype && entityToArchetype[x] < |archetypes|
    {
      this.(archetypes := archetypes[entityToArchetype[x] := t], entities := entities - {x},
            entityToArchetype := entityToArchetype - {x})
    }

    /** The registry after x joined table k, which became t. */
    function Join(x: int, k: nat, t: Table): Registry
      requires k < |archetypes|
    {
      this.(archetypes := archetypes[k := t], entities := entities + {x},
            entityToArchetype := entityToArchetype[x := k])
    }

    /** CreateEntity: GetEntityID (the counter's value, then the counter moves on), and the new
        id becomes live in the empty table, without components. */
    method CreateEntity(validatesTypes: bool) returns (r: Registry, x: int)
      requires Valid(validatesTypes)
      ensures r.Valid(validatesTypes)
      ensures x == nextEntityID && r.nextEntityID == x + 1
      ensures x !in entities && r.entities == entities + {x} && r.entityToArchetype == entityToArchetype[x := 0]
      ensures r.Row(x) == map[]
      ensures forall y | y in entities :: r.Row(y) == Row(y)
      ensures |r.archetypes| == |archetypes| && r.archetypeMap == archetypeMap
    {
      x := nextEntityID;
      var bumped := this.(nextEntityID := x + 1);
      assert x !in Members(archetypes)[0] by {
        assert x !in entities;
      }
      var t, _ := archetypes[0].AddEntity(x);
      var row := DefaultRow(archetypes[0].columns.Keys);
      archetypes[0].KeysOfRows(t, x, row);
      CreatedValid(this, validatesTypes, t);
      JoinedRow(this, x, 0, t, row);
      JoinedRows(this, x, 0, t, row);
      assert Filters(archetypes)[0] == [];
      r := bumped.Join(x, 0, t);
    }

    /** DestroyEntity: a live entity leaves its table and the directory; the result is false
        whether or not the entity was live (the source returns false on both paths). */
    method DestroyEntity(validatesTypes: bool, x: int) returns (r: Registry, ok: bool)
      requires Valid(validatesTypes)
      ensures r.Valid(validatesTypes) && !ok
      ensures r.entities == entities - {x} && r.entityToArchetype == entityToArchetype - {x}
      ensures x !in entities ==> r == this
      ensures forall y | y in r.entities :: r.Row(y) == Row(y)
      ensures r.nextEntityID == nextEntityID && |r.archetypes| == |archetypes| && r.archetypeMap == archetypeMap
    {
      if x !in entities {
        return this, false;
      }
      var k := entityToArchetype[x];
      var t, _ := archetypes[k].RemoveEntity(x);
      Left(this, validatesTypes, x, t);
      r, ok := Leave(x, t), false;
    }

    /** HasComponent<T>: whether the entity is live and has a T. */
    function HasComponent(validatesTypes: bool, x: int, t: TypeTag): (r: bool)
      requires Valid(validatesTypes)
      ensures r <==> x in entities && t in Row(x)
    {
      x in entities && (RowTypes(this, validatesTypes, x); archetypes[entityToArchetype[x]].HasType(t))
    }

    /** GetComponent<T> (ArchetypeManager, ECManager) / TryGetComponent<T>
        (EntityComponentManager): the live entity's value of T, or false and default(T); the
        empty table is passed over without being asked. */
    method GetComponent(validatesTypes: bool, x: int, t: TypeTag) returns (found: bool, v: Value)
      requires Valid(validatesTypes)
      ensures found <==> x in entities && t in Row(x)
      ensures found ==> v == Row(x)[t]
      ensures !found ==> v == Default(t)
    {
      if x !in entities {
        return false, Default(t);
      }
      var k := entityToArchetype[x];
      RowTypes(this, validatesTypes, x);
      if k == 0 {
        assert Filters(archetypes)[0] == [];
        return false, Default(t);
      }
      assert x in archetypes[k].Rows();
      found, v := archetypes[k].GetComponent(x, t);
    }

    /** GetParent: the id held by the entity's EntityParent component, or Null's. */
    method GetParent(validatesTypes: bool, x: int) returns (parent: int)
      requires Valid(validatesTypes)
      ensures parent == if x in entities && ParentType in Row(x) then Row(x)[ParentType].payload else NullId
    {
      var found, c := GetComponent(validatesTypes, x, ParentType);
      parent := if found then c.payload else NullId;
    }

    /** SetComponent<T>: overwrites the live entity's value of T, if it has one; false, and no
        change, otherwise (the empty table is passed over without being asked). */
    method SetComponent(validatesTypes: bool, x: int, t: TypeTag, v: Value) returns (r: Registry, ok: bool)
      requires Valid(validatesTypes) && v.ty == t
      ensures r.Valid(validatesTypes)
      ensures ok <==> x in entities && t in Row(x)
      ensures ok ==> r.Row(x) == Row(x)[t := v]
      ensures !ok ==> r == this
      ensures forall y | y in entities && y != x :: r.Row(y) == Row(y)
      ensures r == this.(archetypes := r.archetypes) && |r.archetypes| == |archetypes|
    {
      if x !in entities {
        return this, false;
      }
      var k := entityToArchetype[x];
      RowTypes(this, validatesTypes, x);
      if k == 0 {
        assert Filters(archetypes)[0] == [];
        return this, false;
      }
      assert x in archetypes[k].Rows();
      var t', written := archetypes[k].SetComponent(x, t, v);
      if !written {
        return this, false;
      }
      Rewritten(this, validatesTypes, x, t', Row(x)[t := v]);
      return this.(archetypes := archetypes[k := t']), true;
    }

    /** GetOrCreateArchetype: the table whose filter names exactly the given types (the empty
        table for none), registered under each of its types when it is new. A validating
        directory refuses a non-component type, as the EntityArchetype constructor throws. */
    method GetOrCreateArchetype(validatesTypes: bool, types: seq<TypeTag>) returns (r: Registry, found: Result<nat, Error>)
      requires AllValid(archetypes) && Interned(Filters(archetypes), archetypeMap, validatesTypes)
      requires NoDup(types)
      ensures Extended(archetypes, r.archetypes, r.archetypeMap, validatesTypes)
      ensures r == this.(archetypes := r.archetypes, archetypeMap := r.archetypeMap)
      ensures found.Failure? <==> validatesTypes && exists u | u in types :: !IsComponentType(u)
      ensures found.Failure? ==> found.error == NotComponentTypes
      ensures found.Success? ==> found.value < |r.archetypes| && Elements(r.archetypes[found.value].filter) == Elements(types)
      ensures |types| == 0 ==> found == Success(0)
      ensures (found.Success? && found.value < |archetypes|) || found.Failure? ==> r == this
      ensures found.Success? && found.value == |archetypes| ==> r.archetypes[found.value].filter == types
    {
      if |types| == 0 {
        assert Filters(archetypes)[0] == [];
        return this, Success(0);
      }
      var existing := FindTable(archetypes, types);
      if existing.Some? {
        var f := Filters(archetypes)[existing.value];
        assert Elements(f) == Elements(types);
        forall u | u in types && validatesTypes ensures IsComponentType(u) {
          assert u in Elements(types);
        }
        return this, Success(existing.value);
      }
      var t: Table;
      if validatesTypes {
        var made := NewEntityArchetype(types);
        if made.Failure? {
          return this, Failure(made.error);
        }
        t := made.value;
      } else {
        t := NewArchetype(types);
      }
      var m := Register(archetypeMap, t.filter, |archetypes|);
      Registered(Filters(archetypes), archetypeMap, validatesTypes, t.filter, m);
      FiltersAppended(archetypes, t);
      return this.(archetypes := archetypes + [t], archetypeMap := m), Success(|archetypes|);
    }

    /** GetCompatibleArchetypes: for no types, the empty table; otherwise the intersection of
        the type index's table sets over the types, i.e. every table naming them all (none
        once a type has no table). */
    method GetCompatibleArchetypes(validatesTypes: bool, types: seq<TypeTag>) returns (pool: set<nat>)
      requires Interned(Filters(archetypes), archetypeMap, validatesTypes)
      ensures IsPool(archetypes, types, pool)
    {
      if |types| == 0 {
        return {0};
      }
      pool := {};
      var k := 0;
      while k < |types|
        invariant 0 <= k <= |types|
        invariant k > 0 ==> forall i: nat :: i in pool <==> i < |archetypes| && Compatible(archetypes[i].filter, types[..k])
      {
        var u := types[k];
        if u !in archetypeMap {
          forall i: nat | i < |archetypes| ensures !Compatible(archetypes[i].filter, types) {
            assert Filters(archetypes)[i] == archetypes[i].filter;
          }
          return {};
        }
        var fs := Filters(archetypes);
        forall i: nat ensures i in archetypeMap[u] <==> i < |archetypes| && u in archetypes[i].filter {
          if i in archetypeMap[u] {
            assert i < |fs| && u in fs[i];
          }
          if i < |archetypes| {
            assert fs[i] == archetypes[i].filter;
          }
        }
        forall i: nat | i < |archetypes|
          ensures Compatible(archetypes[i].filter, types[..k + 1])
              <==> Compatible(archetypes[i].filter, types[..k]) && u in archetypes[i].filter
        {
          assert types[..k + 1] == types[..k] + [u];
          CompatibleSnoc(archetypes[i].filter, types[..k], u);
        }
        // The source's pool starts out null and takes the first type's set.
        pool := if k == 0 then archetypeMap[u] else pool * archetypeMap[u];
        k := k + 1;
      }
      assert types[..k] == types;
    }

    /** QueryEntities(types): every live entity whose row holds all the types (for no types:
        every entity without components), each once. Duplicate types are refused; a validating
        directory refuses non-component types too. */
    method QueryEntities(validatesTypes: bool, types: seq<TypeTag>) returns (r: Result<seq<int>, Error>)
      requires Valid(validatesTypes)
      ensures r.Failure? <==> !NoDup(types) || (validatesTypes && exists u | u in types :: !IsComponentType(u))
      ensures r.Failure? ==> r.error == if NoDup(types) then NotComponentTypes else DuplicateTypes
      ensures r.Success? ==> NoDup(r.value)
      ensures r.Success? ==> forall x :: x in r.value <==> x in entities && Matches(Row(x).Keys, types)
    {
      DistinctKeepsLengthIff(types);
      if |Distinct(types)| != |types| {
        return Failure(DuplicateTypes);
      }
      if validatesTypes && exists u | u in types :: !IsComponentType(u) {
        return Failure(NotComponentTypes);
      }
      var pool := GetCompatibleArchetypes(validatesTypes, types);
      OwnedByRegistry(this, validatesTypes, pool);
      var matches := Gather(archetypes, pool, entityToArchetype);
      forall x ensures x in matches <==> x in entities && Matches(Row(x).Keys, types) {
        PoolMatches(this, validatesTypes, types, pool, x);
      }
      return Success(matches);
    }

    /**
     * The second half of every move between tables: x has already left its table, which
     * became `left`; GetOrCreateArchetype(filter), then the bag goes into that table and x is
     * mapped to it. When the validating constructor refuses the filter the source throws
     * here, after x left its table: the result is then the registry as it stands at the
     * throw, x live and mapped but in no table.
     */
    method Relocate(validatesTypes: bool, x: int, left: Table, filter: seq<TypeTag>, bag: ComponentSet,
                    ghost row: map<TypeTag, Value>) returns (r: Registry, err: Option<Error>)
      requires Valid(validatesTypes) && x in entities
      requires left.Valid() && left.filter == archetypes[entityToArchetype[x]].filter
      requires left.Rows() == archetypes[entityToArchetype[x]].Rows() - {x}
      requires NoDup(filter) && Elements(filter) == row.Keys
      requires WellFormed(bag) && Elements(bag.types) <= Elements(filter)
      requires WrittenRow(row.Keys, bag) == row
      ensures err.Some? <==> validatesTypes && exists u | u in filter :: !IsComponentType(u)
      ensures err.Some? ==> err.value == NotComponentTypes
      ensures err.Some? ==> r == this.(archetypes := archetypes[entityToArchetype[x] := left])
      ensures err.None? ==> r.Valid(validatesTypes) && r.Row(x) == row
      ensures err.None? ==> forall y | y in entities && y != x :: r.Row(y) == Row(y)
      ensures r.entities == entities && r.nextEntityID == nextEntityID
    {
      var k := entityToArchetype[x];
      archetypes[k].KeysOfRemoved(left, x);
      FiltersReplaced(archetypes, k, left);
      ValidReplaced(archetypes, k, left);
      var grown, found := this.(archetypes := archetypes[k := left]).GetOrCreateArchetype(validatesTypes, filter);
      if found.Failure? {
        return grown, Some(found.error);
      }
      var j := found.value;
      var target := grown.archetypes[j];
      Vacated(this, x, left, grown.archetypes, j);
      Accepted(target, filter, bag);
      var entered, _ := target.InjectEntity(x, bag);
      target.KeysOfRows(entered, x, row);
      MovedValid(this, validatesTypes, x, left, grown.archetypes, grown.archetypeMap, j, entered);
      MovedRows(this, x, left, grown.archetypes, grown.archetypeMap, j, entered, row);
      return Moved(this, x, grown.archetypes, grown.archetypeMap, j, entered), None;
    }

    /** AddComponent(entity, value) (src/ArchetypeManager.cs): unless the entity already has a
        component of the type, it moves to the table of its types plus that one, carrying
        its values and the new one in the transfer bag. */
    method AddComponent(x: int, t: TypeTag, val: Value) returns (r: Registry, ok: bool)
      requires Valid(false) && x in entities && val.ty == t
      ensures r.Valid(false)
      ensures ok <==> t !in Row(x)
      ensures !ok ==> r == this
      ensures ok ==> r.Row(x) == Row(x)[t := val]
      ensures forall y | y in entities && y != x :: r.Row(y) == Row(y)
      ensures r.entities == entities && r.nextEntityID == nextEntityID
    {
      var source := archetypes[entityToArchetype[x]];
      RowTypes(this, false, x);
      if source.HasType(t) {
        return this, false;
      }
      assert x in source.Rows();
      var left, bag := source.ExtractEntity(x);
      var newFilter := source.filter + [t];
      NoDupAppend(source.filter, t);
      var moved := Append(bag.value, t, val);
      AppendedBagWritesRow(source.filter, Row(x), bag.value, t, val, Row(x).Keys + {t});
      AppendKeepsWellFormed(bag.value, val);
      var err;
      r, err := Relocate(false, x, left, newFilter, moved, Row(x)[t := val]);
      return r, true;
    }

    /** RemoveComponent (src/ArchetypeManager.cs): if the entity has a component of the type,
        it moves to the table of its other types; the bag loses the entry at the type's
        first index. */
    method RemoveComponent(x: int, t: TypeTag) returns (r: Registry, ok: bool)
      requires Valid(false) && x in entities
      ensures r.Valid(false)
      ensures ok <==> t in Row(x)
      ensures !ok ==> r == this
      ensures ok ==> r.Row(x) == Row(x) - {t}
      ensures forall y | y in entities && y != x :: r.Row(y) == Row(y)
      ensures r.entities == entities && r.nextEntityID == nextEntityID
    {
      var source := archetypes[entityToArchetype[x]];
      RowTypes(this, false, x);
      if !source.HasType(t) {
        return this, false;
      }
      assert x in source.Rows();
      var left, bag := source.ExtractEntity(x);
      var newFilter := RemoveFirst(source.filter, t);
      RemoveFirstOfNoDup(source.filter, t);
      var index := IndexOf(bag.value.types, t);
      var moved := RemoveEntry(bag.value, index);
      RemoveAtOfNoDup(source.filter, index);
      RemoveEntryKeepsWellFormed(bag.value, index);
      RemoveFirstIsRemoveAt(source.filter, t);
      RemovedBagWritesRow(source.filter, Row(x), bag.value, index, Row(x).Keys - {t});
      var err;
      r, err := Relocate(false, x, left, newFilter, moved, Row(x) - {t});
      return r, true;
    }

    /**
     * AddComponent<T>(entity) (src/EntityComponentManager.cs, SilverECS.Core/src/ECManager.cs)
     * as written: unless the entity already has the type, its values are taken out of its
     * table, default(T) is appended, and it moves to the table of its types plus T. For a
     * primitive struct T the validating constructor throws only after the entity left its
     * table: the error comes back with the entity still live and mapped, but in no table.
     */
    method AddDefaultComponentAsWritten(validatesTypes: bool, x: int, t: TypeTag) returns (r: Registry, res: Result<bool, Error>)
      requires Valid(validatesTypes) && x in entities
      ensures res.Failure? <==> t !in Row(x) && validatesTypes && !IsComponentType(t)
      ensures res.Failure? ==> res.error == NotComponentTypes && !r.Valid(validatesTypes)
      ensures res.Failure? ==> x in r.entities && r.entityToArchetype == entityToArchetype
      ensures res.Failure? ==> forall i | 0 <= i < |r.archetypes| :: x !in r.archetypes[i].entityIndex
      ensures res.Success? ==> r.Valid(validatesTypes) && res.value == (t !in Row(x))
      ensures res == Success(false) ==> r == this
      ensures res == Success(true) ==> r.Row(x) == Row(x)[t := Default(t)]
      ensures res.Success? ==> forall y | y in entities && y != x :: r.Row(y) == Row(y)
      ensures r.entities == entities && r.nextEntityID == nextEntityID
    {
      var k := entityToArchetype[x];
      var source := archetypes[k];
      RowTypes(this, validatesTypes, x);
      if source.HasType(t) {
        return this, Success(false);
      }
      assert x in source.Rows();
      var left, vals := source.ExtractAndRemoveEntity(x);
      var newFilter := source.filter + [t];
      NoDupAppend(source.filter, t);
      var components := vals.value + [Default(t)];
      RuntimeTypesAppend(vals.value, Default(t));
      AppendedBagWritesRow(source.filter, Row(x), ComponentSet(vals.value, source.filter), t, Default(t), Row(x).Keys + {t});
      FiltersAdmitted(this, validatesTypes, k, t);
      var err;
      r, err := Relocate(validatesTypes, x, left, newFilter, ComponentSet(components, RuntimeTypes(components)), Row(x)[t := Default(t)]);
      if err.Some? {
        source.KeysOfRemoved(left, x);
        forall i | 0 <= i < |r.archetypes| ensures x !in r.archetypes[i].entityIndex {
          if i != k {
            assert Members(archetypes)[i] == archetypes[i].entityIndex.Keys;
          }
        }
        assert x !in Members(r.archetypes)[k];
        return r, Failure(err.value);
      }
      return r, Success(true);
    }

    /** AddComponent<T>(entity) as evidently intended: a type the validating constructor
        would refuse is refused before the entity leaves its table, so an error changes
        nothing. */
    method AddDefaultComponent(validatesTypes: bool, x: int, t: TypeTag) returns (r: Registry, res: Result<bool, Error>)
      requires Valid(validatesTypes) && x in entities
      ensures r.Valid(validatesTypes)
      ensures res.Failure? <==> validatesTypes && !IsComponentType(t)
      ensures res.Failure? ==> res.error == NotComponentTypes && r == this
      ensures res.Success? ==> res.value == (t !in Row(x))
      ensures res == Success(false) ==> r == this
      ensures res == Success(true) ==> r.Row(x) == Row(x)[t := Default(t)]
      ensures forall y | y in entities && y != x :: r.Row(y) == Row(y)
      ensures r.entities == entities && r.nextEntityID == nextEntityID
    {
      if validatesTypes && !IsComponentType(t) {
        return this, Failure(NotComponentTypes);
      }
      r, res := AddDefaultComponentAsWritten(validatesTypes, x, t);
    }

    /** AddComponent<T>(entity, value) (src/EntityComponentManager.cs) as evidently intended:
        the corrected AddComponent<T>, and when that added the type, SetComponent with the
        value. */
    method AddAndSetComponent(validatesTypes: bool, x: int, t: TypeTag, val: Value) returns (r: Registry, res: Result<bool, Error>)
      requires Valid(validatesTypes) && x in entities && val.ty == t
      ensures r.Valid(validatesTypes)
      ensures res.Failure? <==> validatesTypes && !IsComponentType(t)
      ensures res.Failure? ==> res.error == NotComponentTypes && r == this
      ensures res.Success? ==> res.value == (t !in Row(x))
      ensures res == Success(false) ==> r == this
      ensures res == Success(true) ==> r.Row(x) == Row(x)[t := val]
      ensures forall y | y in entities && y != x :: r.Row(y) == Row(y)
      ensures r.entities == entities && r.nextEntityID == nextEntityID
    {
      var added;
      added, res := AddDefaultComponent(validatesTypes, x, t);
      if res != Success(true) {
        return added, res;
      }
      var written;
      r, written := added.SetComponent(validatesTypes, x, t, val);
      Overwritten(Row(x), t, Default(t), val);
    }

    /** AddComponent<T>(entity, value) as written: it calls AddComponent<T>(entity) as
        written, so a refused new type leaves the registry broken in the same way. */
    method AddAndSetComponentAsWritten(validatesTypes: bool, x: int, t: TypeTag, val: Value)
      returns (r: Registry, res: Result<bool, Error>)
      requires Valid(validatesTypes) && x in entities && val.ty == t
      ensures res.Failure? <==> t !in Row(x) && validatesTypes && !IsComponentType(t)
      ensures res.Failure? ==> res.error == NotComponentTypes && !r.Valid(validatesTypes)
      ensures res.Failure? ==> x in r.entities && r.entityToArchetype == entityToArchetype
      ensures res.Failure? ==> forall i | 0 <= i < |r.archetypes| :: x !in r.archetypes[i].entityIndex
      ensures res.Success? ==> r.Valid(validatesTypes) && res.value == (t !in Row(x))
      ensures res == Success(false) ==> r == this
      ensures res == Success(true) ==> r.Row(x) == Row(x)[t := val]
      ensures res.Success? ==> forall y | y in entities && y != x :: r.Row(y) == Row(y)
      ensures r.entities == entities && r.nextEntityID == nextEntityID
    {
      var added;
      added, res := AddDefaultComponentAsWritten(validatesTypes, x, t);
      if res != Success(true) {
        return added, res;
      }
      var written;
      r, written := added.SetComponent(validatesTypes, x, t, val);
      Overwritten(Row(x), t, Default(t), val);
    }

    /**
     * RemoveComponent<T> (src/EntityComponentManager.cs, SilverECS.Core/src/ECManager.cs): if
     * the entity has the type, its values are taken out of its table, the first value whose
     * runtime type is T is removed (List.Remove of that value: an earlier equal value would
     * have the same runtime type), and it moves to the table of its other types.
     */
    method RemoveValueComponent(validatesTypes: bool, x: int, t: TypeTag) returns (r: Registry, ok: bool)
      requires Valid(validatesTypes) && x in entities
      ensures r.Valid(validatesTypes)
      ensures ok <==> t in Row(x)
      ensures !ok ==> r == this
      ensures ok ==> r.Row(x) == Row(x) - {t}
      ensures forall y | y in entities && y != x :: r.Row(y) == Row(y)
      ensures r.entities == entities && r.nextEntityID == nextEntityID
    {
      var k := entityToArchetype[x];
      var source := archetypes[k];
      RowTypes(this, validatesTypes, x);
      if !source.HasType(t) {
        return this, false;
      }
      assert x in source.Rows();
      var left, vals := source.ExtractAndRemoveEntity(x);
      var newFilter := RemoveFirst(source.filter, t);
      var index := IndexOf(RuntimeTypes(vals.value), t);
      var components := RemoveAt(vals.value, index);
      RuntimeTypesRemoveAt(vals.value, index);
      RemoveFirstIsRemoveAt(source.filter, t);
      RemoveAtOfNoDup(source.filter, index);
      RemovedBagWritesRow(source.filter, Row(x), ComponentSet(vals.value, source.filter), index, Row(x).Keys - {t});
      FiltersNarrowed(this, validatesTypes, k, index);
      var err;
      r, err := Relocate(validatesTypes, x, left, newFilter, ComponentSet(components, RuntimeTypes(components)), Row(x) - {t});
      return r, true;
    }
  }

  /** An entity leaving its table keeps the registry valid and the others' rows. */
  lemma Left(r: Registry, validatesTypes: bool, x: int, t: Table)
    requires r.Valid(validatesTypes) && x in r.entities
    requires t.Valid() && t.filter == r.archetypes[r.entityToArchetype[x]].filter
    requires t.Rows() == r.archetypes[r.entityToArchetype[x]].Rows() - {x}
    ensures r.Leave(x, t).Valid(validatesTypes)
    ensures forall y | y in r.Leave(x, t).entities :: r.Leave(x, t).Row(y) == r.Row(y)
  {
    var k := r.entityToArchetype[x];
    FiltersReplaced(r.archetypes, k, t);
    MembersReplaced(r.archetypes, k, t);
    assert t.entityIndex.Keys == r.archetypes[k].entityIndex.Keys - {x};
    PlacedLeft(Members(r.archetypes), r.entities, r.entityToArchetype, r.nextEntityID, x);
    ValidReplaced(r.archetypes, k, t);
    forall y | y in r.Leave(x, t).entities ensures r.Leave(x, t).Row(y) == r.Row(y) {
      RowsLeft(r.archetypes, r.entityToArchetype, x, t, y);
    }
  }

  /** A fresh id below the counter joining table k keeps the registry valid. */
  lemma JoinedValid(r: Registry, validatesTypes: bool, x: int, k: nat, t: Table)
    requires r.Valid(validatesTypes) && x !in r.entities && NullId < x < r.nextEntityID && k < |r.archetypes|
    requires t.Valid() && t.filter == r.archetypes[k].filter
    requires t.entityIndex.Keys == r.archetypes[k].entityIndex.Keys + {x}
    ensures r.Join(x, k, t).Valid(validatesTypes)
  {
    FiltersReplaced(r.archetypes, k, t);
    MembersReplaced(r.archetypes, k, t);
    PlacedJoined(Members(r.archetypes), r.entities, r.entityToArchetype, r.nextEntityID, x, k);
    ValidReplaced(r.archetypes, k, t);
  }

  /** An entity joining table k leaves every other entity's row as it was. */
  lemma KeptByJoin(r: Registry, x: int, k: nat, t: Table, row: map<TypeTag, Value>, y: int)
    requires AllValid(r.archetypes) && Placed(Members(r.archetypes), r.entities, r.entityToArchetype, r.nextEntityID)
    requires k < |r.archetypes| && y in r.entities && y != x
    requires t.Valid() && t.Rows() == r.archetypes[k].Rows()[x := row]
    ensures r.Join(x, k, t).Row(y) == r.Row(y)
  {
    var i := r.entityToArchetype[y];
    assert Members(r.archetypes)[i] == r.archetypes[i].entityIndex.Keys;
    var w := r.archetypes[k := t][i];
    assert w.Valid() && y in w.entityIndex && w.Rows()[y] == r.archetypes[i].Rows()[y] by {
      if i == k {
        assert y in t.Rows();
      }
    }
    assert r.entityToArchetype[x := k][y] == i;
  }

  /** An entity joining table k with the given row has that row. */
  lemma JoinedRow(r: Registry, x: int, k: nat, t: Table, row: map<TypeTag, Value>)
    requires k < |r.archetypes| && r.archetypes[k].Valid() && t.Valid() && t.Rows() == r.archetypes[k].Rows()[x := row]
    ensures r.Join(x, k, t).Row(x) == row
  {
    assert x in t.Rows();
    assert r.entityToArchetype[x := k][x] == k;
  }

  /** An entity joining table k leaves the others' rows as they were. */
  lemma JoinedRows(r: Registry, x: int, k: nat, t: Table, row: map<TypeTag, Value>)
    requires AllValid(r.archetypes) && Placed(Members(r.archetypes), r.entities, r.entityToArchetype, r.nextEntityID)
    requires x !in r.entities && k < |r.archetypes|
    requires t.Valid() && t.Rows() == r.archetypes[k].Rows()[x := row]
    ensures forall y | y in r.entities :: r.Join(x, k, t).Row(y) == r.Row(y)
  {
    forall y | y in r.entities ensures r.Join(x, k, t).Row(y) == r.Row(y) {
      KeptByJoin(r, x, k, t, row, y);
    }
  }

  /** Overwriting a live entity's row in its own table keeps the registry valid, and the
      others' rows. */
  lemma Rewritten(r: Registry, validatesTypes: bool, x: int, t: Table, row: map<TypeTag, Value>)
    requires r.Valid(validatesTypes) && x in r.entities
    requires t.Valid() && t.filter == r.archetypes[r.entityToArchetype[x]].filter
    requires t.Rows() == r.archetypes[r.entityToArchetype[x]].Rows()[x := row]
    ensures r.Join(x, r.entityToArchetype[x], t).Valid(validatesTypes)
    ensures r.Join(x, r.entityToArchetype[x], t) == r.(archetypes := r.archetypes[r.entityToArchetype[x] := t])
    ensures r.Join(x, r.entityToArchetype[x], t).Row(x) == row
    ensures forall y | y in r.entities && y != x :: r.Join(x, r.entityToArchetype[x], t).Row(y) == r.Row(y)
  {
    var k := r.entityToArchetype[x];
    RewrittenValid(r, validatesTypes, x, t, row);
    assert x in t.Rows() && r.archetypes[k := t][k] == t;
    RowAt(r.archetypes[k := t], r.entityToArchetype, x);
    forall y | y in r.entities && y != x ensures r.Join(x, k, t).Row(y) == r.Row(y) {
      RowsWritten(r.archetypes, r.entityToArchetype, k, x, row, t, y);
    }
  }

  /** The registry part of Rewritten: the same entities, in the same tables. */
  lemma RewrittenValid(r: Registry, validatesTypes: bool, x: int, t: Table, row: map<TypeTag, Value>)
    requires r.Valid(validatesTypes) && x in r.entities
    requires t.Valid() && t.filter == r.archetypes[r.entityToArchetype[x]].filter
    requires t.Rows() == r.archetypes[r.entityToArchetype[x]].Rows()[x := row]
    ensures r.Join(x, r.entityToArchetype[x], t).Valid(validatesTypes)
    ensures r.Join(x, r.entityToArchetype[x], t) == r.(archetypes := r.archetypes[r.entityToArchetype[x] := t])
  {
    var k := r.entityToArchetype[x];
    FiltersReplaced(r.archetypes, k, t);
    MembersReplaced(r.archetypes, k, t);
    assert t.entityIndex.Keys == r.archetypes[k].entityIndex.Keys;
    assert Members(r.archetypes)[k := t.entityIndex.Keys] == Members(r.archetypes);
    assert r.entities + {x} == r.entities;
    assert r.entityToArchetype[x := k] == r.entityToArchetype;
    ValidReplaced(r.archetypes, k, t);
  }

  /** A fresh id joining the empty table keeps the registry valid. */
  lemma CreatedValid(r: Registry, validatesTypes: bool, t: Table)
    requires r.Valid(validatesTypes)
    requires t.Valid() && t.filter == r.archetypes[0].filter
    requires t.entityIndex.Keys == r.archetypes[0].entityIndex.Keys + {r.nextEntityID}
    ensures r.nextEntityID !in r.entities
    ensures r.(nextEntityID := r.nextEntityID + 1).Join(r.nextEntityID, 0, t).Valid(validatesTypes)
  {
    Bumped(r, validatesTypes);
    JoinedValid(r.(nextEntityID := r.nextEntityID + 1), validatesTypes, r.nextEntityID, 0, t);
  }

  /** Moving the counter on keeps the registry valid. */
  lemma Bumped(r: Registry, validatesTypes: bool)
    requires r.Valid(validatesTypes)
    ensures r.(nextEntityID := r.nextEntityID + 1).Valid(validatesTypes)
  {
  }

  /** GetOrCreateArchetype keeps the registry valid, and every row. */
  lemma Regrown(r: Registry, validatesTypes: bool, tables: seq<Table>, m: map<TypeTag, set<nat>>)
    requires r.Valid(validatesTypes)
    requires Extended(r.archetypes, tables, m, validatesTypes)
    ensures r.(archetypes := tables, archetypeMap := m).Valid(validatesTypes)
    ensures forall y | y in r.entities :: r.(archetypes := tables, archetypeMap := m).Row(y) == r.Row(y)
  {
    MembersGrown(r.archetypes, tables);
    if Members(tables) != Members(r.archetypes) {
      PlacedAppended(Members(r.archetypes), r.entities, r.entityToArchetype, r.nextEntityID);
    }
  }

  /** What growing the tables does to their members. */
  lemma MembersGrown(tables: seq<Table>, tables': seq<Table>)
    requires Grown(tables, tables')
    ensures Members(tables') == Members(tables) || Members(tables') == Members(tables) + [{}]
  {
    if tables' != tables {
      assert tables' == tables + [tables'[|tables|]];
      assert tables'[|tables|].entityIndex.Keys == {};
      MembersAppended(tables, tables'[|tables|]);
    }
  }

  /** An entity moving from its table to table j of the tables after an extension stays
      placed, and so do the others; before it arrives, table j does not hold it. */
  lemma PlacedMoved(ms: seq<set<int>>, entities: set<int>, e2a: map<int, nat>, next: int, x: int,
                    ms': seq<set<int>>, j: nat)
    requires Placed(ms, entities, e2a, next) && x in entities
    requires var left := ms[e2a[x] := ms[e2a[x]] - {x}]; ms' == left || ms' == left + [{}]
    requires j < |ms'|
    ensures x !in ms'[j]
    ensures Placed(ms'[j := ms'[j] + {x}], entities, e2a[x := j], next)
  {
    var left := ms[e2a[x] := ms[e2a[x]] - {x}];
    PlacedLeft(ms, entities, e2a, next, x);
    if ms' != left {
      PlacedAppended(left, entities - {x}, e2a - {x}, next);
    }
    PlacedJoined(ms', entities - {x}, e2a - {x}, next, x, j);
    assert (entities - {x}) + {x} == entities;
    assert (e2a - {x})[x := j] == e2a[x := j];
  }

  /** The registry after x moved: out of its table, through an extension of the tables to
      (tables, m), into table j, which became t'. */
  function Moved(r: Registry, x: int, tables: seq<Table>, m: map<TypeTag, set<nat>>, j: nat, t': Table): Registry
    requires j < |tables|
  {
    Registry(tables[j := t'], m, r.nextEntityID, r.entities, r.entityToArchetype[x := j])
  }

  /** A move keeps the registry valid; table j did not hold the entity before. */
  lemma MovedValid(r: Registry, validatesTypes: bool, x: int, t: Table, tables: seq<Table>,
                   m: map<TypeTag, set<nat>>, j: nat, t': Table)
    requires Placed(Members(r.archetypes), r.entities, r.entityToArchetype, r.nextEntityID) && x in r.entities
    requires t.entityIndex.Keys == r.archetypes[r.entityToArchetype[x]].entityIndex.Keys - {x}
    requires Extended(r.archetypes[r.entityToArchetype[x] := t], tables, m, validatesTypes)
    requires j < |tables| && t'.Valid() && t'.filter == tables[j].filter
    requires t'.entityIndex.Keys == tables[j].entityIndex.Keys + {x}
    ensures x !in tables[j].entityIndex
    ensures Moved(r, x, tables, m, j, t').Valid(validatesTypes)
  {
    var k := r.entityToArchetype[x];
    MembersReplaced(r.archetypes, k, t);
    MembersGrown(r.archetypes[k := t], tables);
    PlacedMoved(Members(r.archetypes), r.entities, r.entityToArchetype, r.nextEntityID, x, Members(tables), j);
    FiltersReplaced(tables, j, t');
    ValidReplaced(tables, j, t');
    MembersReplaced(tables, j, t');
  }

  /** A move keeps every other entity's row. */
  lemma KeptByMove(r: Registry, x: int, t: Table, tables: seq<Table>, m: map<TypeTag, set<nat>>, j: nat, t': Table,
                   row: map<TypeTag, Value>, y: int)
    requires AllValid(r.archetypes) && Placed(Members(r.archetypes), r.entities, r.entityToArchetype, r.nextEntityID)
    requires x in r.entities && y in r.entities && y != x
    requires t.Valid() && t.Rows() == r.archetypes[r.entityToArchetype[x]].Rows() - {x}
    requires AllValid(tables) && Grown(r.archetypes[r.entityToArchetype[x] := t], tables)
    requires j < |tables| && t'.Valid() && t'.Rows() == tables[j].Rows()[x := row]
    ensures Moved(r, x, tables, m, j, t').Row(y) == r.Row(y)
  {
    var k, i := r.entityToArchetype[x], r.entityToArchetype[y];
    assert Members(r.archetypes)[i] == r.archetypes[i].entityIndex.Keys;
    var u := r.archetypes[k := t][i];
    assert tables[i] == u;
    assert y in u.entityIndex && u.Rows()[y] == r.archetypes[i].Rows()[y] by {
      if i == k {
        KeptByRemoval(r.archetypes[k].Rows(), t.Rows(), x, y);
      }
    }
    var w := tables[j := t'][i];
    assert w.Valid() && y in w.entityIndex && w.Rows()[y] == u.Rows()[y] by {
      if i == j {
        KeptByUpdate(tables[j].Rows(), t'.Rows(), x, row, y);
      }
    }
    assert r.entityToArchetype[x := j][y] == i;
    RowAt(tables[j := t'], r.entityToArchetype[x := j], y);
    RowAt(r.archetypes, r.entityToArchetype, y);
  }

  /** After a move, the entity has the new row and every other entity keeps its row. */
  lemma MovedRows(r: Registry, x: int, t: Table, tables: seq<Table>, m: map<TypeTag, set<nat>>, j: nat, t': Table,
                  row: map<TypeTag, Value>)
    requires AllValid(r.archetypes) && Placed(Members(r.archetypes), r.entities, r.entityToArchetype, r.nextEntityID)
    requires x in r.entities
    requires t.Valid() && t.Rows() == r.archetypes[r.entityToArchetype[x]].Rows() - {x}
    requires AllValid(tables) && Grown(r.archetypes[r.entityToArchetype[x] := t], tables)
    requires j < |tables| && t'.Valid() && t'.Rows() == tables[j].Rows()[x := row]
    ensures Moved(r, x, tables, m, j, t').Row(x) == row
    ensures forall y | y in r.entities && y != x :: Moved(r, x, tables, m, j, t').Row(y) == r.Row(y)
  {
    assert x in t'.Rows();
    assert r.entityToArchetype[x := j][x] == j && tables[j := t'][j] == t';
    RowAt(tables[j := t'], r.entityToArchetype[x := j], x);
    forall y | y in r.entities && y != x ensures Moved(r, x, tables, m, j, t').Row(y) == r.Row(y) {
      KeptByMove(r, x, t, tables, m, j, t', row, y);
    }
  }

  /** The component types of a live entity are its table's filter. */
  lemma RowTypes(r: Registry, validatesTypes: bool, x: int)
    requires r.Valid(validatesTypes) && x in r.entities
    ensures r.Row(x).Keys == Elements(r.archetypes[r.entityToArchetype[x]].filter)
  {
    var k := r.entityToArchetype[x];
    assert x in r.archetypes[k].Rows();
  }
  /** Table k's filter plus t names a non-component type exactly when t is not one, in a
      validating registry. */
  lemma FiltersAdmitted(r: Registry, validatesTypes: bool, k: nat, t: TypeTag)
    requires r.Valid(validatesTypes) && k < |r.archetypes|
    ensures validatesTypes ==>
      ((exists u | u in r.archetypes[k].filter + [t] :: !IsComponentType(u)) <==> !IsComponentType(t))
  {
    if validatesTypes {
      forall u | u in r.archetypes[k].filter ensures IsComponentType(u) {
        assert u in Filters(r.archetypes)[k];
      }
    }
  }

  /** Table k's filter without one entry names component types only, in a validating
      registry. */
  lemma FiltersNarrowed(r: Registry, validatesTypes: bool, k: nat, i: nat)
    requires r.Valid(validatesTypes) && k < |r.archetypes| && i < |r.archetypes[k].filter|
    ensures validatesTypes ==> forall u | u in RemoveAt(r.archetypes[k].filter, i) :: IsComponentType(u)
  {
    if validatesTypes {
      forall u | u in RemoveAt(r.archetypes[k].filter, i) ensures IsComponentType(u) {
        assert u in Filters(r.archetypes)[k];
      }
    }
  }

  /** Writing a row's value twice keeps the second write. */
  lemma Overwritten(row: map<TypeTag, Value>, t: TypeTag, first: Value, second: Value)
    ensures row[t := first][t := second] == row[t := second]
  {
  }

  /** A table whose filter names the types of a well-formed bag will take it. */
  lemma Accepted(t: Table, filter: seq<TypeTag>, bag: ComponentSet)
    requires t.Valid() && Elements(t.filter) == Elements(filter)
    requires WellFormed(bag) && Elements(bag.types) <= Elements(filter)
    ensures t.Accepts(bag)
  {
    forall i | 0 <= i < |bag.components| ensures bag.types[i] in t.filter {
      assert bag.types[i] in Elements(bag.types);
    }
  }

  /** Before a moving entity arrives, no table of the extended tables holds it. */
  lemma Vacated(r: Registry, x: int, t: Table, tables: seq<Table>, j: nat)
    requires Placed(Members(r.archetypes), r.entities, r.entityToArchetype, r.nextEntityID) && x in r.entities
    requires t.entityIndex.Keys == r.archetypes[r.entityToArchetype[x]].entityIndex.Keys - {x}
    requires Grown(r.archetypes[r.entityToArchetype[x] := t], tables) && j < |tables|
    ensures x !in tables[j].entityIndex
  {
    var k := r.entityToArchetype[x];
    if j < |r.archetypes| {
      assert tables[j] == r.archetypes[k := t][j];
      if j != k {
        assert Members(r.archetypes)[j] == r.archetypes[j].entityIndex.Keys;
      }
    }
  }

  /**
   * The search of GetOrCreateArchetype: the first table whose filter names the same set of
   * types (HashSet.SetEquals), if any.
   */
  method FindTable(tables: seq<Table>, types: seq<TypeTag>) returns (r: Option<nat>)
    requires AllValid(tables) && NoDup(types)
    ensures r.Some? ==> r.value < |tables| && Elements(tables[r.value].filter) == Elements(types)
    ensures r.None? ==> forall i | 0 <= i < |tables| :: Elements(tables[i].filter) != Elements(types)
  {
    var i := 0;
    while i < |tables|
      invariant i <= |tables|
      invariant forall k | 0 <= k < i :: Elements(tables[k].filter) != Elements(types)
    {
      var f := tables[i].filter;
      if |f| == |types| && (set u | u in f) == (set u | u in types) {
        return Some(i);
      }
      if |f| != |types| {
        NoDupCardinality(f);
        NoDupCardinality(types);
      }
      i := i + 1;
    }
    return None;
  }

  /** The type index after table i, with the given filter, is registered under each of its types. */
  ghost predicate RegisteredAs(m: map<TypeTag, set<nat>>, m': map<TypeTag, set<nat>>, filter: seq<TypeTag>, i: nat) {
    && (forall u :: u in m' <==> u in m || u in filter)
    && (forall u | u in m' :: m'[u] == (if u in m then m[u] else {}) + (if u in filter then {i} else {}))
  }

  /** The registration loop of GetOrCreateArchetype: each type of the new filter gets the new table. */
  method Register(m: map<TypeTag, set<nat>>, filter: seq<TypeTag>, i: nat) returns (m': map<TypeTag, set<nat>>)
    ensures RegisteredAs(m, m', filter, i)
  {
    m' := m;
    var k := 0;
    while k < |filter|
      invariant k <= |filter|
      invariant RegisteredAs(m, m', filter[..k], i)
    {
      var u := filter[k];
      var tablesOfType := if u in m' then m'[u] else {};
      m' := m'[u := tablesOfType + {i}];
      assert filter[..k + 1] == filter[..k] + [u];
      k := k + 1;
    }
    assert filter[..k] == filter;
  }

  /**
   * Registering a table whose filter names a set of types no table names yet keeps the
   * filters interned.
   */
  lemma {:induction false} Registered(fs: seq<seq<TypeTag>>, m: map<TypeTag, set<nat>>, validatesTypes: bool,
                                      filter: seq<TypeTag>, m': map<TypeTag, set<nat>>)
    requires Interned(fs, m, validatesTypes)
    requires forall i | 0 <= i < |fs| :: Elements(fs[i]) != Elements(filter)
    requires validatesTypes ==> forall u | u in filter :: IsComponentType(u)
    requires RegisteredAs(m, m', filter, |fs|)
    ensures Interned(fs + [filter], m', validatesTypes)
  {
    var fs' := fs + [filter];
    forall i, j | 0 <= i < j < |fs'| ensures Elements(fs'[i]) != Elements(fs'[j]) {
      if j < |fs| {
        assert fs'[i] == fs[i] && fs'[j] == fs[j];
      } else {
        assert fs'[i] == fs[i];
      }
    }
    forall i, u | 0 <= i < |fs'| && u in fs'[i] ensures u in m' && i in m'[u] {
      if i < |fs| {
        assert fs'[i] == fs[i];
      }
    }
    forall u, i | u in m' && i in m'[u] ensures i < |fs'| && u in fs'[i] {
      assert m'[u] == (if u in m then m[u] else {}) + (if u in filter then {|fs|} else {});
      if u in m && i in m[u] {
        assert i < |fs| && u in fs[i];
        assert fs'[i] == fs[i];
      } else {
        assert u in filter && i == |fs| && fs'[i] == filter;
      }
    }
  }

  /** The entities of the tables `done`, each once. */
  ghost predicate Gathered(tables: seq<Table>, done: set<nat>, matches: seq<int>)
    requires forall i | i in done :: i < |tables|
  {
    && NoDup(matches)
    && (forall x | x in matches :: exists k | k in done :: x in tables[k].entityIndex)
    && (forall k, x | k in done && x in tables[k].entityIndex :: x in matches)
  }

  /** Each entity of a table of the pool is owned by that table, so no two tables share one. */
  ghost predicate Owned(tables: seq<Table>, pool: set<nat>, owner: map<int, nat>)
    requires forall i | i in pool :: i < |tables|
  {
    forall i, x | i in pool && x in tables[i].entityIndex :: x in owner && owner[x] == i
  }

  /** One more table's entities, appended, keep the gathered list. */
  lemma GatheredOneMore(tables: seq<Table>, pool: set<nat>, owner: map<int, nat>, done: set<nat>, matches: seq<int>, i: nat)
    requires forall k | k in pool :: k < |tables| && tables[k].Valid()
    requires Owned(tables, pool, owner) && done <= pool && i in pool && i !in done
    requires Gathered(tables, done, matches)
    ensures Gathered(tables, done + {i}, matches + tables[i].GetEntities())
  {
    var es := tables[i].GetEntities();
    forall p, q | 0 <= p < |matches| && 0 <= q < |es| ensures matches[p] != es[q] {
      var x := matches[p];
      assert x in matches;
      var k :| k in done && x in tables[k].entityIndex;
      assert owner[x] == k;
    }
    NoDupConcat(matches, es);
  }

  /**
   * The gathering loop of QueryEntities: the entities of every table of the pool, each table
   * contributing its entity list in turn; the pool is a HashSet, so the order of the tables
   * is left open.
   */
  method Gather(tables: seq<Table>, pool: set<nat>, ghost owner: map<int, nat>) returns (matches: seq<int>)
    requires forall i | i in pool :: i < |tables| && tables[i].Valid()
    requires Owned(tables, pool, owner)
    ensures NoDup(matches)
    ensures forall x :: x in matches <==> exists i | i in pool :: i < |tables| && x in tables[i].entityIndex
  {
    matches := [];
    var todo := pool;
    while todo != {}
      invariant todo <= pool
      invariant Gathered(tables, pool - todo, matches)
      decreases |todo|
    {
      var i :| i in todo;
      GatheredOneMore(tables, pool, owner, pool - todo, matches, i);
      matches := matches + tables[i].GetEntities();
      assert (pool - todo) + {i} == pool - (todo - {i});
      todo := todo - {i};
    }
    assert pool - todo == pool;
  }

  /** The entity map owns every table's entities. */
  lemma OwnedByRegistry(r: Registry, validatesTypes: bool, pool: set<nat>)
    requires r.Valid(validatesTypes) && forall i | i in pool :: i < |r.archetypes|
    ensures Owned(r.archetypes, pool, r.entityToArchetype)
  {
    forall i, x | i in pool && x in r.archetypes[i].entityIndex
      ensures x in r.entityToArchetype && r.entityToArchetype[x] == i
    {
      assert x in Members(r.archetypes)[i];
    }
  }

  /** Whether a row with the given types answers a query for `types`: the empty query asks
      for entities without components, any other for entities holding all its types. */
  ghost predicate Matches(keys: set<TypeTag>, types: seq<TypeTag>) {
    if |types| == 0 then keys == {} else forall u | u in types :: u in keys
  }

  /** Whether a table's filter holds every type of a query. */
  ghost predicate Compatible(filter: seq<TypeTag>, types: seq<TypeTag>) {
    forall u | u in types :: u in filter
  }

  lemma CompatibleSnoc(filter: seq<TypeTag>, types: seq<TypeTag>, u: TypeTag)
    ensures Compatible(filter, types + [u]) <==> Compatible(filter, types) && u in filter
  {
    assert u in types + [u];
    assert forall w | w in types :: w in types + [u];
  }

  /** The pool of GetCompatibleArchetypes: the empty table for the empty query, else every
      table compatible with it. */
  ghost predicate IsPool(tables: seq<Table>, types: seq<TypeTag>, pool: set<nat>) {
    if |types| == 0 then pool == {0} else forall i: nat :: i in pool <==> i < |tables| && Compatible(tables[i].filter, types)
  }

  /** The tables of a query's pool hold exactly the live entities whose rows match the query. */
  lemma PoolMatches(r: Registry, validatesTypes: bool, types: seq<TypeTag>, pool: set<nat>, x: int)
    requires r.Valid(validatesTypes) && IsPool(r.archetypes, types, pool)
    ensures (exists i | i in pool :: i < |r.archetypes| && x in r.archetypes[i].entityIndex)
        <==> x in r.entities && Matches(r.Row(x).Keys, types)
  {
    if exists i | i in pool :: i < |r.archetypes| && x in r.archetypes[i].entityIndex {
      var i :| i in pool && i < |r.archetypes| && x in r.archetypes[i].entityIndex;
      PooledMatches(r, validatesTypes, types, pool, x, i);
    }
    if x in r.entities && Matches(r.Row(x).Keys, types) {
      MatchesPooled(r, validatesTypes, types, pool, x);
    }
  }

  /** A member of a pool table is live and matches the query. */
  lemma PooledMatches(r: Registry, validatesTypes: bool, types: seq<TypeTag>, pool: set<nat>, x: int, i: nat)
    requires r.Valid(validatesTypes) && IsPool(r.archetypes, types, pool)
    requires i in pool && i < |r.archetypes| && x in r.archetypes[i].entityIndex
    ensures x in r.entities && Matches(r.Row(x).Keys, types)
  {
    assert Members(r.archetypes)[i] == r.archetypes[i].entityIndex.Keys;
    RowTypes(r, validatesTypes, x);
  }

  /** A live entity matching the query sits in a pool table. */
  lemma MatchesPooled(r: Registry, validatesTypes: bool, types: seq<TypeTag>, pool: set<nat>, x: int)
    requires r.Valid(validatesTypes) && IsPool(r.archetypes, types, pool)
    requires x in r.entities && Matches(r.Row(x).Keys, types)
    ensures r.entityToArchetype[x] in pool && x in r.archetypes[r.entityToArchetype[x]].entityIndex
  {
    var i := r.entityToArchetype[x];
    RowTypes(r, validatesTypes, x);
    assert Members(r.archetypes)[i] == r.archetypes[i].entityIndex.Keys;
    if |types| == 0 {
      assert Elements(Filters(r.archetypes)[i]) == Elements(Filters(r.archetypes)[0]);
    }
  }
}
