# SilverECS core, modelled in Dafny

SilverECS is an entity–component–system library. An *entity* is an id. A *component* is a
value attached to an entity, of a non-primitive struct type in the validating tables (any
type in ArchetypeManager's); an entity holds at most one component per type. The entity directory stores entities in *archetypes*: one table per set
of component types, with one column (list) per type and one row per entity. Adding or
removing a component moves the entity's row to the table of its new type set, creating that
table on first use. A type index (type → tables naming it) answers queries: "every entity
holding all of these types". Beside the directory sits a message container: one FIFO queue
per message type.

The repository holds three generations of the directory:

- `src/ArchetypeManager.cs` over `src/Archetype.cs` tables. Entities are `Entity` objects.
- `src/EntityComponentManager.cs` over `src/EntityArchetype.cs` tables. Entities are
  `EntityID` values, and there are entity factories.
- the older `SilverECS.Core/src/ECManager.cs`, also over the validating tables.

The validating table refuses types that are not non-primitive value types. The model covers
all three generations with one directory; flags and separate members mark where they differ.

Modules:

- **`Components`**: type descriptors (`TypeTag`: an id plus the "value type" and "primitive"
  flags the source tests), component values (`Value`: a type and a payload), the
  `default(T)` value, and the error kinds the source throws (`Error`).
- **`Identity`**: `EntityID` (a value type compared by id), `Entity` (a class compared by
  id, with a mutable World), their equality operators, and their hash codes.
  `long.GetHashCode` is written out on 64-bit two's complement.
- **`ComponentSets`**: `ComponentSet`, the transfer bag of parallel value and type lists.
  `ComponentSet.From` builds one. `WrittenRow` gives the row that writing a bag's entries
  into a fresh default row produces, with the last write winning.
- **`Tables`**: the column algebra of a table. It states how appending, swapping, truncating
  and overwriting rows changes the entity → row map. It also holds the per-column loops of
  the table operations as methods.
- **`Archetypes`**:
  - `Table` is the table as a value (filter, entity → slot index, slot → entity list,
    type → column), with every table operation as a member. The operations are the union of
    `Archetype.cs` and `EntityArchetype.cs`.
  - `Archetype` is the class holding those four fields and updating them in place.
  - `NewArchetype` and `NewEntityArchetype` are the two constructors. The second validates
    the types.
- **`Registries`**: `Registry`, the directory's five structures as a value (tables in
  creation order with the empty table first, type index, id counter, live entities,
  entity → table), with its invariant `Valid`. The flag `validatesTypes` selects the
  validating tables. Every directory operation is defined here against `Row(x)`, the live
  entity's component values by type. So are the lookup and registration loops of
  GetOrCreateArchetype, the pool computed by GetCompatibleArchetypes, and the gathering loop
  of QueryEntities.
- **`Directories`**: `Directory`, the class with the directory's fields. Each operation
  computes its new state with the matching `Registry` operation and stores it.
- **`Messages`**: `MessageContainer`, the class holding type → queue. It covers
  `src/MessageContainer.cs` and `SilverECS.Core/src/MessageBus.cs`, which have the same
  code. It also states FIFO behaviour over sequences of pops.
- **`Lists`** and **`Wrappers`**: sequence helpers (no duplicates, `Distinct`,
  `RemoveFirst`, `RemoveAt`) and `Option`/`Result`.

Where the code throws and the throw leaves nothing changed, the model has a precondition
that excludes the throwing input; each such precondition is listed under "Left out", and
every call the directory makes to a table meets them. Where a throw leaves the directory
changed, the model has a `Failure` result instead (see Findings), with one exception: the
default construction of a cell in `AddEntity` is taken to succeed (see "Left out").

`DestroyEntity` returns `false` on every path, also after removing a live entity
(src/ArchetypeManager.cs:55-68, src/EntityComponentManager.cs:72-83); the doc comment at
src/IEntityManager.cs:19-22 promises no particular result, and the model returns `false`
as the code does.

## Model

| member | source | states |
|---|---|---|
| Components.Default | src/EntityComponentManager.cs:153 | `default(T)` is a value of type T |
| Components.DefaultRow | src/Archetype.cs:161-176 | the row a newly added entity gets: one default value per filter type, each of its own type |
| Identity.EntityID.Equals | src/EntityID.cs:28-31 | two EntityIDs are `Equals` exactly when they are the same value |
| Identity.EntityID.GetHashCode | src/EntityID.cs:43-46 | the hash is the id itself: it determines the EntityID, so distinct ids never collide |
| Identity.EqualsObject | src/EntityID.cs:23-26 | `Equals(object)` is true exactly for a boxed EntityID with the same id; false for null and any other object |
| Identity.OpEqual | src/EntityID.cs:33-36 | `==` on EntityID is id equality |
| Identity.OpNotEqual | src/EntityID.cs:38-41 | `!=` is the negation of `==` |
| Identity.EntityIDEqualsIsValueEquality | src/EntityID.cs:28-46 | `Equals` holds iff the two ids are the same value; it agrees with the boxed `Equals(object)`; equal ids hash alike |
| Identity.XorZero | src/Entity.cs:67-70 | the bitwise xor used by the hash leaves a number unchanged when xor-ed with zero |
| Identity.Int64Hash | src/Entity.cs:67-70 | `long.GetHashCode()` is a signed 32-bit int, and an id in 0 .. 2^31-1 is its own hash |
| Identity.Entity.IsDestroyed | src/Entity.cs:19 | an entity is destroyed exactly when it has no World; `Entity.Null` and the object `DestroyEntityHandle` clears are destroyed |
| Identity.Entity.Equals | src/Entity.cs:32-45 | `Equals(Entity)` is false for null and otherwise compares ids; the same-object shortcut agrees with that |
| Identity.Entity.GetHashCode | src/Entity.cs:67-70 | the hash of the id: a signed 32-bit int, the id itself for an id in 0 .. 2^31-1 |
| Identity.EntityEqualsObject | src/Entity.cs:27-30 | `Equals(object)` is true exactly for an Entity object with the same id; false for null and any other object |
| Identity.EntityOpEqual | src/Entity.cs:47-60 | `==` on Entity: null equals only null, two entities are equal exactly when their ids are |
| Identity.EntityOpNotEqual | src/Entity.cs:62-65 | `!=` on Entity: exactly one side null, or two entities with different ids |
| Identity.Entity.constructor | src/Entity.cs:21 | a new Entity has the given world and id |
| Identity.Entity.Null | src/Entity.cs:13 | `Entity.Null` has id 0, no world, and counts as destroyed |
| Identity.EntityEqualityIsIdEquality | src/Entity.cs:27-65 | `==`, `!=`, `Equals(Entity)` and `Equals(object)` on Entity all mean "same id" (null equals only null; a non-Entity object equals nothing) |
| Identity.EqualEntitiesHashAlike | src/Entity.cs:67-70 | entities that are `Equals` have equal hash codes, so dictionaries keyed by Entity are keyed by id |
| ComponentSets.RuntimeTypes | src/EntityArchetype.cs:186-199 | the list of the values' runtime types, position by position |
| ComponentSets.From | src/ComponentSet.cs:15-27 | fails iff some object is null; otherwise the bag holds the objects in order, with the runtime types alongside |
| ComponentSets.AppendKeepsWellFormed | src/ArchetypeManager.cs:111-113 | appending a value with its own type keeps a bag well formed (types match values) |
| ComponentSets.RemoveEntryKeepsWellFormed | src/ArchetypeManager.cs:142-145 | removing one entry keeps a bag well formed |
| ComponentSets.WrittenRow | src/Archetype.cs:178-191 | the row written by injecting a bag has exactly the table's types as keys |
| ComponentSets.LastWriteTyped | src/Archetype.cs:185-188 | when every write to a type is a value of that type, the final cell is of that type |
| ComponentSets.LastWriteUntouched | src/Archetype.cs:185-188 | a type the bag never names keeps its default value |
| ComponentSets.LastWriteOfDistinct | src/Archetype.cs:185-188 | with no repeated type, each type's cell ends with the bag's value for it |
| ComponentSets.LastWritePrefix | src/Archetype.cs:185-188 | after the first n writes of a bag without repeated types, each of those n cells holds its value |
| ComponentSets.ExtractedBagRestoresRow | src/Archetype.cs:178-235 | injecting the bag extracted from a row into a table with the same types reproduces that row |
| ComponentSets.RuntimeTypesAppend | src/EntityComponentManager.cs:152-153 | adding `default(T)` to the value list adds T to its runtime types |
| ComponentSets.RuntimeTypesRemoveAt | src/EntityComponentManager.cs:199-200 | removing one value removes its runtime type at the same position |
| ComponentSets.AppendedBagWritesRow | src/ArchetypeManager.cs:107-117 | the extracted bag plus a new entry of a new type writes the old row extended by that type's value |
| ComponentSets.RemovedBagWritesRow | src/ArchetypeManager.cs:136-149 | the extracted bag minus one entry writes the old row without that type |
| Tables.EmptyColumns | src/Archetype.cs:29-47 | one empty column per filter type |
| Tables.AppendDefaults | src/Archetype.cs:168-171 | every column grows by one cell holding its type's default value |
| Tables.SwapInColumns | src/Archetype.cs:263-270 | every column has its cells at the two slots exchanged, nothing else changed |
| Tables.ReadRow | src/Archetype.cs:222-231 | the values of one slot in filter order, each of its filter type |
| Tables.WriteEntries | src/Archetype.cs:185-188 | each bag entry is written, in order, into the last slot of its type's column |
| Tables.DropLastInColumns | src/Archetype.cs:204-207 | every column loses its last cell |
| Tables.SetCellRows | src/Archetype.cs:107-149 | writing one cell changes one entity's row at one type and no other row |
| Tables.AppendRowRows | src/Archetype.cs:161-176 | appending a row and indexing the new entity at the last slot adds exactly that entity's row |
| Tables.SwapRowsRows | src/Archetype.cs:250-275 | swapping two slots in the columns and in both indexes leaves every entity's row unchanged |
| Tables.RemovedRows | src/Archetype.cs:193-212 | swap-with-last then drop-last removes exactly the entity's row and keeps every other row |
| Archetypes.Table.Count | src/EntityArchetype.cs:25 | the number of slots, which is the number of entities in the table |
| Archetypes.Table.HasType | src/Archetype.cs:49-52 | the table has a column for exactly the types of its filter |
| Archetypes.Table.HasEntity | src/Archetype.cs:156-159 | the entity has a row in the table |
| Archetypes.Table.GetEntities | src/Archetype.cs:151-154 | every entity of the table, each once |
| Archetypes.Table.GetComponentStorage | src/Archetype.cs:237-248 | the column of a filter type; nothing for any other type |
| Archetypes.Table.GetComponents | src/Archetype.cs:54-57 | a filter type's column: one value per slot, the value in that slot's entity's row |
| Archetypes.Table.GetComponent | src/Archetype.cs:83-105 | found iff the entity is in the table and the type in its filter; then the row's value, else `default(T)` |
| Archetypes.Table.GetComponentOfType | src/Archetype.cs:59-81 | the untyped getter: a value iff the entity is in the table and has the type, and it is the row's value, of that type |
| Archetypes.Table.SetComponent | src/Archetype.cs:129-149 | succeeds iff the entity is in the table and the type in its filter; then only that entity's value of that type changes; else the table is unchanged |
| Archetypes.Table.SetComponentOfType | src/Archetype.cs:107-127 | the untyped setter: succeeds iff the entity is in a table with a non-empty filter; then exactly that cell changes |
| Archetypes.Table.AddEntity | src/Archetype.cs:161-176 | succeeds iff the entity is new to the table; it gets the last slot and a row of defaults, and no other row changes |
| Archetypes.Table.SwapSets | src/Archetype.cs:250-275 | the two slots exchange entities in both indexes and in every column |
| Archetypes.Table.RemoveEntity | src/Archetype.cs:193-212 | succeeds iff the entity is in the table; its row goes and every other row stays |
| Archetypes.Table.ExtractEntity | src/Archetype.cs:214-235 | as RemoveEntity, and returns a well-formed bag of the removed row's values in filter order |
| Archetypes.Table.ExtractAndRemoveEntity | src/EntityArchetype.cs:222-240 | as RemoveEntity, and returns the removed row's values in filter order, whose runtime types are the filter |
| Archetypes.Table.InjectEntity | src/Archetype.cs:178-191 | succeeds iff the entity is new to the table; it gets the last slot and the row the bag writes |
| Archetypes.Table.AddAndPopulateEntity | src/EntityArchetype.cs:186-199 | as InjectEntity, with each value written to the column of its runtime type |
| Archetypes.Table.ExtractThenInject | src/Archetype.cs:178-235 | extracting an entity and injecting the bag into the table it left gives back the same rows and count |
| Archetypes.Table.ExtractThenPopulate | src/EntityArchetype.cs:186-240 | extracting an entity's values and re-adding them with AddAndPopulateEntity gives back the same rows and count |
| Archetypes.Restored | src/Archetype.cs:193-235 | removing an entity's row and putting the same row back gives the rows that were there |
| Archetypes.NewArchetype | src/Archetype.cs:29-47 | an empty, valid table with the given filter and one empty column per type |
| Archetypes.NewEntityArchetype | src/EntityArchetype.cs:31-52 | fails with "not component types" iff some type is not a non-primitive value type; otherwise an empty valid table |
| Archetypes.Archetype.constructor | src/Archetype.cs:29-47 | a new table object with the given filter and no entities |
| Archetypes.Archetype.SetComponent | src/Archetype.cs:129-149 | in place: as `Table.SetComponent` |
| Archetypes.Archetype.SetComponentOfType | src/Archetype.cs:107-127 | in place: as `Table.SetComponentOfType` |
| Archetypes.Archetype.AddEntity | src/Archetype.cs:161-176 | in place: as `Table.AddEntity` |
| Archetypes.Archetype.SwapSets | src/Archetype.cs:250-275 | in place: as `Table.SwapSets` |
| Archetypes.Archetype.RemoveEntity | src/Archetype.cs:193-212 | in place: as `Table.RemoveEntity` |
| Archetypes.Archetype.ExtractEntity | src/Archetype.cs:214-235 | in place: as `Table.ExtractEntity` |
| Archetypes.Archetype.ExtractAndRemoveEntity | src/EntityArchetype.cs:222-240 | in place: as `Table.ExtractAndRemoveEntity` |
| Archetypes.Archetype.InjectEntity | src/Archetype.cs:178-191 | in place: as `Table.InjectEntity` |
| Archetypes.Archetype.AddAndPopulateEntity | src/EntityArchetype.cs:186-199 | in place: as `Table.AddAndPopulateEntity` |
| Registries.Registry.CreateEntity | src/EntityComponentManager.cs:42-52 | the new id is the counter, which goes up by one; the entity is live, in the empty table, without components; every other entity keeps its row |
| Registries.Registry.DestroyEntity | src/EntityComponentManager.cs:72-83 | the entity is no longer live or mapped, every remaining entity keeps its row, and the result is always false |
| Registries.Registry.HasComponent | src/EntityComponentManager.cs:241-250 | true iff the entity is live and its row holds the type |
| Registries.Registry.GetComponent | src/EntityComponentManager.cs:214-236 | found iff the entity is live and holds the type; then its value, else `default(T)` |
| Registries.Registry.GetParent | src/EntityComponentManager.cs:97-107 | the parent stored in a live entity's EntityParent component, else Null |
| Registries.Registry.SetComponent | src/EntityComponentManager.cs:256-276 | succeeds iff the entity is live and holds the type; then only that value changes; else nothing changes |
| Registries.Registry.GetOrCreateArchetype | src/EntityComponentManager.cs:360-391 | a table whose filter is the given type set: an existing one, or a new last table with exactly that filter, registered in the type index; the empty list gives the empty table; a validating directory fails on a non-component type and changes nothing |
| Registries.FindTable | src/ArchetypeManager.cs:294-302 | finds a table whose filter is the given type set, or reports that none is |
| Registries.Register | src/ArchetypeManager.cs:307-315 | the type index afterwards lists the new table under each of its types and is otherwise unchanged |
| Registries.Registered | src/ArchetypeManager.cs:303-317 | registering a new table with a new type set keeps the filters and the type index in agreement |
| Registries.Registry.GetCompatibleArchetypes | src/ArchetypeManager.cs:320-352 | the pool: the empty table for the empty query, else every table whose filter holds all queried types |
| Registries.CompatibleSnoc | src/ArchetypeManager.cs:332-349 | one more type in the query keeps a table compatible iff the table also has that type (the intersection step) |
| Registries.PoolMatches | src/ArchetypeManager.cs:320-352 | the pool's tables hold exactly the live entities whose rows answer the query |
| Registries.Gather | src/ArchetypeManager.cs:267-274 | the pool tables' entities, each once, and nothing else |
| Registries.GatheredOneMore | src/ArchetypeManager.cs:269-272 | adding one more table's entities keeps the gathered list free of duplicates and complete for the tables done |
| Registries.Registry.QueryEntities | src/EntityComponentManager.cs:328-348 | fails with "duplicate types" on a repeated type, and (validating directory) with "not component types" on a non-component type; otherwise returns each live entity holding all the queried types exactly once (the empty query: the entities without components) |
| Registries.Registry.AddComponent | src/ArchetypeManager.cs:98-121 | succeeds iff the entity lacks the type; then its row gains the given value and nothing else changes; on false the directory is unchanged |
| Registries.Registry.RemoveComponent | src/ArchetypeManager.cs:127-153 | succeeds iff the entity holds the type; then its row loses exactly that type; other entities keep their rows |
| Registries.Registry.Relocate | src/ArchetypeManager.cs:115-118 | moving an extracted entity to the table for its new type set gives it exactly the intended row; a validating directory fails on a non-component type, with the entity already gone from its old table |
| Registries.Registry.AddDefaultComponentAsWritten | src/EntityComponentManager.cs:138-161 | as written: a validating directory and a new non-component type T give a failure that leaves the directory broken, with the entity live but in no table; otherwise the entity gains `default(T)` iff it lacked T |
| Registries.Registry.AddDefaultComponent | src/EntityComponentManager.cs:138-161 | the directory stays valid; fails iff a validating directory is given a non-component type, and then changes nothing; else succeeds with true iff the entity lacked T, which it then holds with `default(T)` |
| Registries.Registry.AddAndSetComponentAsWritten | src/EntityComponentManager.cs:167-179 | as written: as AddDefaultComponentAsWritten (the same broken directory on a new non-component type), but an added component holds the given value |
| Registries.Registry.AddAndSetComponent | SilverECS.Core/src/ECManager.cs:157-169 | as the corrected AddDefaultComponent, but the new component holds the given value: the directory stays valid, a refused type changes nothing |
| Registries.Registry.RemoveValueComponent | src/EntityComponentManager.cs:185-208 | succeeds iff the entity holds T; then its row loses exactly T, and the directory stays valid |
| Registries.Left | src/EntityComponentManager.cs:79-80 | an entity leaving its table and the maps keeps the directory valid and every other row |
| Registries.JoinedRows | src/EntityComponentManager.cs:48-49 | placing a new entity in a table changes no other entity's row |
| Registries.Rewritten | src/EntityComponentManager.cs:256-276 | rewriting a live entity's row inside its own table keeps the directory valid and the other rows |
| Registries.CreatedValid | src/EntityComponentManager.cs:42-52 | taking the counter's id and placing it in the empty table keeps the directory valid |
| Registries.Regrown | src/EntityComponentManager.cs:360-391 | creating and registering a table keeps the directory valid and every row |
| Registries.MovedValid | src/EntityComponentManager.cs:155-158 | re-placing an extracted entity in its new table and remapping it keeps the directory valid |
| Registries.MovedRows | src/EntityComponentManager.cs:155-158 | after the move the entity has the written row and every other row is unchanged |
| Registries.RowTypes | src/EntityComponentManager.cs:143-146 | a live entity's row holds exactly the types of its table's filter |
| Directories.Directory.constructor | src/EntityComponentManager.cs:32-40 | an empty directory: only the empty table, no entities, no factories, the counter at Null.ID + 1 |
| Directories.Directory.EntityCount | src/EntityComponentManager.cs:30 | the number of live entities, which equals the number of mapped entities |
| Directories.Directory.HasEntity | src/EntityComponentManager.cs:88-91 | an entity is live exactly when it sits in the table it is mapped to |
| Directories.Directory.CreateEntity | SilverECS.Core/src/ECManager.cs:31-41 | in place: as `Registry.CreateEntity`; the count goes up by one and factories are untouched |
| Directories.Directory.CreateEntityOfType | src/EntityComponentManager.cs:57-67 | creates an entity and returns the factory stored for the entity type, if any |
| Directories.Directory.CreateEntityHandle | src/ArchetypeManager.cs:40-50 | creates an entity and returns a fresh Entity object with its id and this world |
| Directories.Directory.DestroyEntity | SilverECS.Core/src/ECManager.cs:43-54 | in place: as `Registry.DestroyEntity`; the count goes down by one for a live entity |
| Directories.Directory.DestroyEntityHandle | src/ArchetypeManager.cs:55-68 | destroys the entity, and clears the object's world when it was live |
| Directories.Directory.HasFactory | src/EntityComponentManager.cs:129-132 | true exactly for an entity type a factory is stored for; after `SetFactory` it is true iff a factory was given |
| Directories.Directory.SetFactory | src/EntityComponentManager.cs:114-124 | stores the factory for the entity type, or removes it when none is given |
| Directories.Directory.GetComponent | src/ArchetypeManager.cs:159-180 | as `Registry.GetComponent` |
| Directories.Directory.HasComponent | src/ArchetypeManager.cs:185-193 | true iff the entity is live and holds the type |
| Directories.Directory.GetParent | src/ArchetypeManager.cs:82-92 | as `Registry.GetParent` |
| Directories.Directory.SetComponent | src/ArchetypeManager.cs:199-218 | in place: as `Registry.SetComponent` |
| Directories.Directory.AddComponent | src/ArchetypeManager.cs:98-121 | in place: as `Registry.AddComponent` |
| Directories.Directory.RemoveComponent | src/ArchetypeManager.cs:127-153 | in place: as `Registry.RemoveComponent` |
| Directories.Directory.AddDefaultComponent | SilverECS.Core/src/ECManager.cs:61-84 | in place: as the corrected `Registry.AddDefaultComponent` |
| Directories.Directory.AddAndSetComponent | src/EntityComponentManager.cs:167-179 | in place: as the corrected `Registry.AddAndSetComponent` |
| Directories.Directory.RemoveValueComponent | SilverECS.Core/src/ECManager.cs:86-109 | in place: as `Registry.RemoveValueComponent` |
| Directories.Directory.QueryEntities | SilverECS.Core/src/ECManager.cs:201-221 | as `Registry.QueryEntities` |
| Messages.QueueOf | src/MessageContainer.cs:80-95 | a type that was never used has an empty queue |
| Messages.PopHead | src/MessageContainer.cs:40-57 | a non-empty queue gives its head and the rest; an empty one gives false and `default(T)` and stays as it was |
| Messages.PopMany | src/MessageContainer.cs:40-57 | n pops always return n messages, the ones past the queue's end being `default(T)`, and leave `|q| - n` messages (none once the queue ran dry) |
| Messages.PopManyIsFifo | src/MessageContainer.cs:40-57 | n pops from a queue of at least n messages return the first n in push order and leave the rest |
| Messages.PushThenPopAll | src/MessageContainer.cs:28-57 | pushing messages and popping everything returns the old messages followed by the pushed ones, and empties the queue |
| Messages.PopEmpty | src/MessageContainer.cs:40-57 | pops from an empty queue all fail, return `default(T)` and leave it empty |
| Messages.MessageContainer.constructor | src/MessageContainer.cs:12 | no queues |
| Messages.MessageContainer.GetStorage | src/MessageContainer.cs:80-95 | returns the type's queue, creating an empty one the first time |
| Messages.MessageContainer.PushMessage | src/MessageContainer.cs:17-23 | the message joins the end of its type's queue; other queues stay |
| Messages.MessageContainer.PushMessages | SilverECS.Core/src/MessageBus.cs:19-25 | the messages join the end of their type's queue in order |
| Messages.MessageContainer.PopMessage | SilverECS.Core/src/MessageBus.cs:27-44 | one `PopHead` on the type's queue; a returned message has the queue's type |
| Messages.MessageContainer.PopMessages | src/MessageContainer.cs:62-70 | returns the whole queue in push order and leaves it empty |
| Messages.MessageContainer.Clear | src/MessageContainer.cs:72-78 | every queue is empty and no type is forgotten |

## Left out

- Entity factories are stored and looked up, but not invoked: `CreateEntityOfType` returns the factory instead of calling it, because the callback is foreign code that can change the world arbitrarily.
- World, GameLoop, systems and `EntityIDExtension` (forwarders from ids to the world) are not part of this model; the Entity class's forwarding methods to its World (`AddComponent`, `GetComponent`, ...) are left out for the same reason.
- `ToString` and the debugger displays are left out: they format text and change nothing.
- The id counter is an unbounded integer. The source's counter is a 64-bit `long` in ArchetypeManager and a 32-bit `int` in the other two; its wrap-around (after 2^63, resp. 2^31 - 1 creations) and the id reuse that follows are not modelled.
- The order of HashSet and Dictionary enumeration is not modelled. Query results are specified as sets (each entity once), and the pool as a set of table positions; `Gather` visits the pool in an arbitrary order.
- `GetOrCreateArchetype` searches the tables in creation order and returns the first with the same type set; the source enumerates a HashSet. Since no two tables have the same type set, the result is the same.
- Tables are held by value and named by their position in the table list; the `Archetype` objects the source shares between `archetypes`, `archetypeMap` and `entityToArchetype` are not modelled as shared references. So aliasing a table object from outside the directory is not captured.
- A lookup that throws `KeyNotFoundException` is excluded by a precondition: `Registries.Registry.AddComponent`, `RemoveComponent`, `AddDefaultComponent`, `AddAndSetComponent` and `RemoveValueComponent` require a live entity, and `Archetypes.Table.GetComponentOfType` / `SetComponentOfType` require a filter type.
- Archetypes.Table.InjectEntity and Archetypes.Archetype.InjectEntity require the bag to be acceptable (`Accepts`) when the entity is new. The source throws after `AddEntity` has already appended the row (src/Archetype.cs:178-191): `KeyNotFoundException` for an entry type outside a non-empty filter, `ArgumentOutOfRangeException` when the bag has fewer types than values, and `ArgumentException` for a value of the wrong type. That half-done state is not modelled.
- Archetypes.Table.AddAndPopulateEntity and Archetypes.Archetype.AddAndPopulateEntity require every value's runtime type to be in a non-empty filter when the entity is new; the source throws `KeyNotFoundException` at src/EntityArchetype.cs:195 after the row was appended, and that state is not modelled.
- Archetypes.Table.SetComponentOfType and Archetypes.Archetype.SetComponentOfType require the value to be of the given type; the non-generic `IList` indexer at src/Archetype.cs:119 throws `ArgumentException` for any other value.
- Archetypes.NewArchetype, Archetypes.NewEntityArchetype and Archetypes.Archetype.constructor require a filter without repeated types: the constructors add one column per listed type with `Dictionary.Add`, which throws on a repeat (src/Archetype.cs:37-44, src/EntityArchetype.cs:43-50).
- Registries.Registry.AddComponent: the generic parameter T is taken to be the runtime type of the value (`val.ty == t`); passing a value whose runtime type is a subtype of T is not modelled.
- Registries.Registry.AddComponent and RemoveComponent have the non-validating tables (ArchetypeManager's `Archetype`) only, the directory they belong to.
- Registries.Registry.RemoveValueComponent: `components.Remove(components.First(x => x.GetType() == typeof(T)))` is modelled as removing the value at the first position whose runtime type is T; this agrees with the source when the component type keeps `ValueType`'s default `Equals` (no override), because `List.Remove` compares the earlier entries with `Equals`; a type whose `Equals` override makes an earlier entry of type T equal to the one found is not modelled.
- Registries.Registry.AddComponent and Archetypes.Table.AddEntity assume `Activator.CreateInstance` succeeds for every column type (src/Archetype.cs:170), which holds for every value type. ArchetypeManager's `AddComponent<T>` has no `struct` constraint (src/ArchetypeManager.cs:98), so a T without a public parameterless constructor (`string`, say) makes `AddEntity` throw `MissingMethodException` inside `InjectEntity`, after `ExtractEntity` took the entity out and `GetOrCreateArchetype` registered the new table. That exception and the half-done directory it leaves (the entity live but in no table, the new table's earlier columns one cell longer than its index) are not modelled: `Components.Default` gives every type a value.
- Archetypes.Table.AddAndPopulateEntity: the per-value column lookup by runtime type is modelled as injecting the bag of the values with their runtime types.
- The typed query forwarders `QueryEntities<A>` … `QueryEntities<A, B, C, D>` are left out; they call `QueryEntities(params Type[])` with their type arguments.
- ECManager's constructor takes no world; the model's constructor always takes one, which ECManager ignores.

## Findings

| source | as written | input that shows it | evidently intended | confidence | as-written member | corrected member |
|---|---|---|---|---|---|---|
| src/EntityComponentManager.cs:138-161 (same code in SilverECS.Core/src/ECManager.cs:61-84) | `AddComponent<T>` extracts the entity from its table before `GetOrCreateArchetype` builds the new EntityArchetype, whose constructor throws for a primitive T | `AddComponent<int>(e)` on any live entity `e`: the exception leaves `e` live and mapped to its old table, but in no table, so later calls on `e` misbehave | refuse T before touching the entity, leaving the directory unchanged | not executed | Registries.Registry.AddDefaultComponentAsWritten | Registries.Registry.AddDefaultComponent |
| src/EntityComponentManager.cs:167-179 (same code in SilverECS.Core/src/ECManager.cs:157-169) | `AddComponent<T>(entity, value)` calls the `AddComponent<T>(entity)` above, so it inherits the same exception after the entity left its table | `AddComponent<int>(e, 5)` on any live entity `e`: the same broken directory as above | call the corrected `AddComponent<T>(entity)`, so a refused T changes nothing | not executed | Registries.Registry.AddAndSetComponentAsWritten | Registries.Registry.AddAndSetComponent |
