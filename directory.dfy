/**
 * The entity directory and query engine: src/ArchetypeManager.cs, its successor
 * src/EntityComponentManager.cs and the older SilverECS.Core/src/ECManager.cs. All three keep
 * the same five structures (the id counter, the live entities, entity -> table, the tables,
 * type -> tables) and differ in a few places, which the members below name:
 *
 *  - `validatesTypes` is false for ArchetypeManager (its tables are Archetype) and true for
 *    the other two (their tables are EntityArchetype, whose constructor refuses non-component
 *    types, and whose QueryEntities refuses them too);
 *  - AddComponent / RemoveComponent move an entity with a transfer bag (ArchetypeManager);
 *    AddDefaultComponent / AddAndSetComponent / RemoveValueComponent move it with a plain
 *    list of values (EntityComponentManager, ECManager);
 *  - ArchetypeManager hands out Entity objects (CreateEntityHandle, DestroyEntityHandle), the
 *    other two bare ids; only EntityComponentManager keeps factories.
 *
 * The class holds the five structures in fields and updates them in place; each operation
 * computes the new structures with the matching operation of `Registries.Registry` and
 * stores them. An operation that throws in the source has a precondition excluding it here,
 * except where the throw leaves the directory changed, which is modelled as a `Failure`.
 */
module Directories {
  import opened Wrappers
  import opened Lists
  import opened Components
  import opened Archetypes
  import opened Identity
  import opened Registries

  /** The factory an entity type is created with: a foreign callback, known only by identity. */
  datatype Factory = Factory(id: nat)

  class Directory {
    /** The world the directory belongs to (ArchetypeManager stamps it on its Entity objects). */
    const world: WorldRef
    /** Whether the tables are EntityArchetype (validating) rather than Archetype. */
    const validatesTypes: bool
    /** Every table created so far, in creation order; the empty table first. */
    var archetypes: seq<Table>
    /** type -> the positions of the tables whose filter names it. */
    var archetypeMap: map<TypeTag, set<nat>>
    /** The id the next created entity gets. */
    var nextEntityID: int
    /** The live entities, by id. */
    var entities: set<int>
    /** Live entity -> the position of the table holding its components. */
    var entityToArchetype: map<int, nat>
    /** Entity type -> factory (EntityComponentManager only). */
    var factories: map<int, Factory>

    /** The directory's five structures as one value. */
    function Snapshot(): Registry
      reads this
    {
      Registry(archetypes, archetypeMap, nextEntityID, entities, entityToArchetype)
    }

    ghost predicate Valid()
      reads this
    {
      Snapshot().Valid(validatesTypes)
    }

    /** A live entity's component values, by type. */
    ghost function Row(x: int): map<TypeTag, Value>
      reads this
    {
      Snapshot().Row(x)
    }

    /** A new directory: no entities, only the empty table, the counter at Null.ID + 1. */
    constructor (world: WorldRef, validatesTypes: bool)
      ensures Valid()
      ensures this.world == world && this.validatesTypes == validatesTypes
      ensures |archetypes| == 1 && archetypes[0].filter == [] && archetypes[0].entityIndex == map[]
      ensures archetypeMap == map[] && factories == map[]
      ensures entities == {} && entityToArchetype == map[] && nextEntityID == NullId + 1
    {
      this.world := world;
      this.validatesTypes := validatesTypes;
      var empty := NewArchetype([]);
      archetypes := [empty];
      archetypeMap := map[];
      nextEntityID := NullId + 1;
      entities := {};
      entityToArchetype := map[];
      factories := map[];
    }

    /** Replaces the five structures by r's. */
    method Store(r: Registry)
      modifies this
      ensures Snapshot() == r && factories == old(factories)
    {
      archetypes := r.archetypes;
      archetypeMap := r.archetypeMap;
      nextEntityID := r.nextEntityID;
      entities := r.entities;
      entityToArchetype := r.entityToArchetype;
    }

    /** EntityCount: the number of live entities, which is the number of entities placed in a table. */
    function EntityCount(): (n: nat)
      reads this
      requires Valid()
      ensures n == |entityToArchetype.Keys|
    {
      |entities|
    }

    /** HasEntity (ArchetypeManager) / EntityExists (the other two): an entity is live exactly when it sits in its table. */
    predicate HasEntity(x: int)
      reads this
      requires Valid()
      ensures HasEntity(x) <==> x in entityToArchetype && entityToArchetype[x] < |archetypes| && x in archetypes[entityToArchetype[x]].entityIndex
    {
      x in entities
    }

    /** CreateEntity: a fresh id, live, in the empty table, without components. */
    method CreateEntity() returns (x: int)
      requires Valid()
      modifies this
      ensures Valid()
      ensures x == old(nextEntityID) && nextEntityID == x + 1
      ensures x !in old(entities) && entities == old(entities) + {x} && EntityCount() == old(EntityCount()) + 1
      ensures entityToArchetype == old(entityToArchetype)[x := 0]
      ensures Row(x) == map[]
      ensures forall y | y in old(entities) :: Row(y) == old(Row(y))
      ensures |archetypes| == |old(archetypes)| && archetypeMap == old(archetypeMap) && factories == old(factories)
    {
      var r;
      r, x := Snapshot().CreateEntity(validatesTypes);
      Store(r);
    }

    /**
     * CreateEntity(entityType) (EntityComponentManager): CreateEntity, and the factory of the
     * entity type, if one is set, which the caller is to invoke on the new entity.
     */
    method CreateEntityOfType(entityType: int) returns (x: int, factory: Option<Factory>)
      requires Valid()
      modifies this
      ensures Valid()
      ensures x == old(nextEntityID) && x !in old(entities) && entities == old(entities) + {x}
      ensures Row(x) == map[]
      ensures forall y | y in old(entities) :: Row(y) == old(Row(y))
      ensures factory.Some? <==> entityType in factories
      ensures factory.Some? ==> factory.value == factories[entityType]
      ensures factories == old(factories)
    {
      x := CreateEntity();
      factory := if entityType in factories then Some(factories[entityType]) else None;
    }

    /** CreateEntity (ArchetypeManager): the new entity as an Entity object of this world. */
    method CreateEntityHandle() returns (e: Entity)
      requires Valid()
      modifies this
      ensures Valid() && fresh(e)
      ensures e.id == old(nextEntityID) && e.world == Some(world)
      ensures e.id !in old(entities) && entities == old(entities) + {e.id}
      ensures Row(e.id) == map[]
      ensures forall y | y in old(entities) :: Row(y) == old(Row(y))
    {
      var x := CreateEntity();
      e := new Entity(Some(world), x);
    }

    /**
     * DestroyEntity: a live entity leaves its table and the directory; the result is false
     * whether or not the entity was live (the source returns false on both paths).
     */
    method DestroyEntity(x: int) returns (ok: bool)
      requires Valid()
      modifies this
      ensures Valid() && !ok
      ensures entities == old(entities) - {x} && entityToArchetype == old(entityToArchetype) - {x}
      ensures x in old(entities) ==> EntityCount() == old(EntityCount()) - 1
      ensures x !in old(entities) ==> Snapshot() == old(Snapshot())
      ensures forall y | y in entities :: Row(y) == old(Row(y))
      ensures nextEntityID == old(nextEntityID) && |archetypes| == |old(archetypes)|
      ensures archetypeMap == old(archetypeMap) && factories == old(factories)
    {
      var r;
      r, ok := Snapshot().DestroyEntity(validatesTypes, x);
      Store(r);
    }

    /** DestroyEntity (ArchetypeManager): also detaches a destroyed entity's object from the world. */
    method DestroyEntityHandle(e: Entity) returns (ok: bool)
      requires Valid()
      modifies this, e
      ensures Valid() && !ok
      ensures entities == old(entities) - {e.id}
      ensures forall y | y in entities :: Row(y) == old(Row(y))
      ensures e.world == if e.id in old(entities) then None else old(e.world)
      ensures e.id in old(entities) ==> e.IsDestroyed()
    {
      var live := e.id in entities;
      ok := DestroyEntity(e.id);
      if live {
        e.world := None;
      }
    }

    /** SetFactory: a factory is stored for the entity type; none removes the type's factory. */
    method SetFactory(entityType: int, factory: Option<Factory>)
      modifies this
      ensures HasFactory(entityType) <==> factory.Some?
      ensures factories == if factory.Some? then old(factories)[entityType := factory.value] else old(factories) - {entityType}
      ensures Snapshot() == old(Snapshot())
    {
      if factory.Some? {
        factories := factories[entityType := factory.value];
      } else {
        factories := factories - {entityType};
      }
    }

    /** HasFactory: whether the entity type has a factory. */
    function HasFactory(entityType: int): (r: bool)
      reads this
      ensures r <==> entityType in factories
    {
      entityType in factories
    }

    /**
     * GetComponent<T> (ArchetypeManager, ECManager) / TryGetComponent<T>
     * (EntityComponentManager): the live entity's value of T, or false and default(T).
     */
    method GetComponent(x: int, t: TypeTag) returns (found: bool, v: Value)
      requires Valid()
      ensures found <==> x in entities && t in Row(x)
      ensures found ==> v == Row(x)[t]
      ensures !found ==> v == Default(t)
    {
      found, v := Snapshot().GetComponent(validatesTypes, x, t);
    }

    /** HasComponent<T>: whether the entity is live and has a T. */
    predicate HasComponent(x: int, t: TypeTag)
      reads this
      requires Valid()
      ensures HasComponent(x, t) <==> x in entities && t in Row(x)
    {
      Snapshot().HasComponent(validatesTypes, x, t)
    }

    /** GetParent: the id held by the entity's EntityParent component, or Null's. */
    method GetParent(x: int) returns (parent: int)
      requires Valid()
      ensures parent == if x in entities && ParentType in Row(x) then Row(x)[ParentType].payload else NullId
    {
      parent := Snapshot().GetParent(validatesTypes, x);
    }

    /**
     * SetComponent<T>: overwrites the live entity's value of T, if it has one; false, and no
     * change, otherwise (the empty table is passed over without being asked).
     */
    method SetComponent(x: int, t: TypeTag, v: Value) returns (ok: bool)
      requires Valid() && v.ty == t
      modifies this
      ensures Valid()
      ensures ok <==> x in old(entities) && t in old(Row(x))
      ensures ok ==> Row(x) == old(Row(x))[t := v]
      ensures !ok ==> Snapshot() == old(Snapshot())
      ensures forall y | y in entities && y != x :: Row(y) == old(Row(y))
      ensures entities == old(entities) && entityToArchetype == old(entityToArchetype)
      ensures nextEntityID == old(nextEntityID) && |archetypes| == |old(archetypes)|
      ensures archetypeMap == old(archetypeMap) && factories == old(factories)
    {
      var r;
      r, ok := Snapshot().SetComponent(validatesTypes, x, t, v);
      Store(r);
    }

    /** AddComponent(entity, value) (ArchetypeManager): the live entity gains the value's type
        with that value, unless it already has the type. */
    method AddComponent(x: int, t: TypeTag, v: Value) returns (ok: bool)
      requires Valid() && !validatesTypes && x in entities && v.ty == t
      modifies this
      ensures Valid()
      ensures ok <==> t !in old(Row(x))
      ensures ok ==> Row(x) == old(Row(x))[t := v]
      ensures !ok ==> Snapshot() == old(Snapshot())
      ensures forall y | y in entities && y != x :: Row(y) == old(Row(y))
      ensures entities == old(entities) && nextEntityID == old(nextEntityID) && factories == old(factories)
    {
      var r;
      r, ok := Snapshot().AddComponent(x, t, v);
      Store(r);
    }

    /** RemoveComponent<T> (ArchetypeManager): the live entity loses its value of T, if it has one. */
    method RemoveComponent(x: int, t: TypeTag) returns (ok: bool)
      requires Valid() && !validatesTypes && x in entities
      modifies this
      ensures Valid()
      ensures ok <==> t in old(Row(x))
      ensures ok ==> Row(x) == old(Row(x)) - {t}
      ensures !ok ==> Snapshot() == old(Snapshot())
      ensures forall y | y in entities && y != x :: Row(y) == old(Row(y))
      ensures entities == old(entities) && nextEntityID == old(nextEntityID) && factories == old(factories)
    {
      var r;
      r, ok := Snapshot().RemoveComponent(x, t);
      Store(r);
    }

    /**
     * AddComponent<T>(entity) (EntityComponentManager, ECManager): the live entity gains
     * default(T), unless it already has a T. A primitive T is refused without any change
     * (the source throws only after the entity left its table; see
     * `Registries.Registry.AddDefaultComponentAsWritten`).
     */
    method AddDefaultComponent(x: int, t: TypeTag) returns (res: Result<bool, Error>)
      requires Valid() && x in entities
      modifies this
      ensures Valid()
      ensures res.Failure? <==> validatesTypes && !IsComponentType(t)
      ensures res.Failure? ==> res.error == NotComponentTypes
      ensures res.Success? ==> res.value == (t !in old(Row(x)))
      ensures res != Success(true) ==> Snapshot() == old(Snapshot())
      ensures res == Success(true) ==> Row(x) == old(Row(x))[t := Default(t)]
      ensures forall y | y in entities && y != x :: Row(y) == old(Row(y))
      ensures entities == old(entities) && nextEntityID == old(nextEntityID) && factories == old(factories)
    {
      var r;
      r, res := Snapshot().AddDefaultComponent(validatesTypes, x, t);
      Store(r);
    }

    /** AddComponent<T>(entity, value) (EntityComponentManager) as evidently intended: the
        corrected AddComponent<T>, then the value is written when the type was added. */
    method AddAndSetComponent(x: int, t: TypeTag, v: Value) returns (res: Result<bool, Error>)
      requires Valid() && x in entities && v.ty == t
      modifies this
      ensures Valid()
      ensures res.Failure? <==> validatesTypes && !IsComponentType(t)
      ensures res.Failure? ==> res.error == NotComponentTypes
      ensures res.Success? ==> res.value == (t !in old(Row(x)))
      ensures res != Success(true) ==> Snapshot() == old(Snapshot())
      ensures res == Success(true) ==> Row(x) == old(Row(x))[t := v]
      ensures forall y | y in entities && y != x :: Row(y) == old(Row(y))
      ensures entities == old(entities) && nextEntityID == old(nextEntityID) && factories == old(factories)
    {
      var r;
      r, res := Snapshot().AddAndSetComponent(validatesTypes, x, t, v);
      Store(r);
    }

    /** RemoveComponent<T> (EntityComponentManager, ECManager): the live entity loses its
        value of T, if it has one. */
    method RemoveValueComponent(x: int, t: TypeTag) returns (ok: bool)
      requires Valid() && x in entities
      modifies this
      ensures Valid()
      ensures ok <==> t in old(Row(x))
      ensures ok ==> Row(x) == old(Row(x)) - {t}
      ensures !ok ==> Snapshot() == old(Snapshot())
      ensures forall y | y in entities && y != x :: Row(y) == old(Row(y))
      ensures entities == old(entities) && nextEntityID == old(nextEntityID) && factories == old(factories)
    {
      var r;
      r, ok := Snapshot().RemoveValueComponent(validatesTypes, x, t);
      Store(r);
    }

    /**
     * QueryEntities(types): every live entity whose row holds all the types (for no types:
     * every entity without components), each once. Duplicate types are refused; a validating
     * directory refuses non-component types too.
     */
    method QueryEntities(types: seq<TypeTag>) returns (r: Result<seq<int>, Error>)
      requires Valid()
      ensures r.Failure? <==> !NoDup(types) || (validatesTypes && exists u | u in types :: !IsComponentType(u))
      ensures r.Failure? ==> r.error == if NoDup(types) then NotComponentTypes else DuplicateTypes
      ensures r.Success? ==> NoDup(r.value)
      ensures r.Success? ==> forall x :: x in r.value <==> x in entities && Matches(Row(x).Keys, types)
    {
      r := Snapshot().QueryEntities(validatesTypes, types);
    }
  }
}
