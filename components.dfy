/**
 * Component types and boxed component values.
 *
 * The source identifies a component type by its System.Type and asks reflection two
 * questions about it (IsValueType, IsPrimitive); it builds default values with
 * Activator.CreateInstance. Here a type is a descriptor carrying those two answers, and a
 * boxed value carries its exact runtime type next to an opaque payload.
 */
module Components {

  /** A component type; `id` tells types apart. */
  datatype TypeTag = TypeTag(id: nat, isValueType: bool, isPrimitive: bool)

  /** The test both the validating table constructor and the validating queries apply:
      "Components must be non-primitive value types". */
  predicate IsComponentType(t: TypeTag) {
    t.isValueType && !t.isPrimitive
  }

  /** A boxed component value: `GetType()` is `ty`, the contents are `payload`. */
  datatype Value = Value(ty: TypeTag, payload: int)

  /** Activator.CreateInstance(t): for a value type this is default(T), a value of type t with
      zeroed contents. For a reference type CreateInstance would run the parameterless
      constructor instead (and throw without one); the model gives every type this value. */
  function Default(t: TypeTag): (v: Value)
    ensures v.ty == t
  {
    Value(t, 0)
  }

  /** The row a table appends for a new entity: one default value per column. */
  function DefaultRow(types: set<TypeTag>): (row: map<TypeTag, Value>)
    ensures row.Keys == types
    ensures forall t | t in row :: row[t].ty == t
  {
    map t | t in types :: Default(t)
  }

  /** Contract violations the source reports by throwing InvalidOperationException. */
  datatype Error =
    | DuplicateTypes     // "Duplicate types are not allowed!"
    | NotComponentTypes  // "one or more types are not component types!" / "Components must be non-primitive value types."
}
