/**
 * Entity identity: the EntityID value type (src/EntityID.cs) and the Entity reference
 * type (src/Entity.cs). Both compare and hash by their integer id only.
 */
module Identity {
  import opened Wrappers

  /** The id of the reserved null entity; live entities are numbered from NullId + 1. */
  const NullId: int := 0

  /** src/EntityID.cs: a readonly integer id. */
  datatype EntityID = EntityID(id: int) {

    /** Equals(EntityID other): two EntityIDs are equal exactly when they are the same value. */
    function Equals(other: EntityID): (r: bool)
      ensures r <==> other == this
    {
      other.id == id
    }

    /** GetHashCode() returns the id itself, so distinct ids never share a hash. */
    function GetHashCode(): (h: int)
      ensures EntityID(h) == this
    {
      id
    }
  }

  /** EntityID.Null. */
  const Null: EntityID := EntityID(NullId)

  /** What Equals(object) may be handed: null, a boxed EntityID, or any other object. */
  datatype Object = NullObject | BoxedEntityID(boxed: EntityID) | OtherObject(tag: nat)

  /** Equals(object obj): `obj is EntityID entity && Equals(entity)`. */
  function EqualsObject(self: EntityID, obj: Object): (r: bool)
    ensures r <==> obj.BoxedEntityID? && obj.boxed.id == self.id
    ensures !obj.BoxedEntityID? ==> !r
  {
    match obj
    case BoxedEntityID(other) => self.Equals(other)
    case _ => false
  }

  /** operator ==. */
  function OpEqual(one: EntityID, two: EntityID): (r: bool)
    ensures r <==> one.id == two.id
  {
    one.Equals(two)
  }

  /** operator !=. */
  function OpNotEqual(one: EntityID, two: EntityID): (r: bool)
    ensures r <==> !OpEqual(one, two)
  {
    !one.Equals(two)
  }

  /** EntityID equality is value equality, so a dictionary keyed by EntityID is keyed by id. */
  lemma EntityIDEqualsIsValueEquality(a: EntityID, b: EntityID)
    ensures a.Equals(b) <==> a == b
    ensures a.Equals(b) <==> EqualsObject(a, BoxedEntityID(b))
    ensures a.Equals(b) ==> a.GetHashCode() == b.GetHashCode()
  {
  }

  const Two32: int := 0x1_0000_0000
  const Two64: int := 0x1_0000_0000_0000_0000

  /** Bitwise exclusive or of two naturals, one binary digit at a time. */
  function Xor(a: nat, b: nat): nat
    decreases a + b
  {
    if a == 0 && b == 0 then 0 else 2 * Xor(a / 2, b / 2) + (a % 2 + b % 2) % 2
  }

  /** x ^ 0 == x. */
  lemma {:induction false} XorZero(a: nat)
    ensures Xor(a, 0) == a
  {
    if a != 0 {
      XorZero(a / 2);
    }
  }

  /**
   * long.GetHashCode(): `(int)value ^ (int)(value >> 32)` on the 64-bit two's-complement
   * representation, read back as a signed 32-bit int. Ids below 2^31 (every id the
   * directory hands out in practice) hash to themselves.
   */
  function Int64Hash(x: int): (h: int)
    ensures -0x8000_0000 <= h < 0x8000_0000
    ensures 0 <= x < 0x8000_0000 ==> h == x
  {
    var bits := x % Two64;
    var u := Xor(bits % Two32, bits / Two32) % Two32;
    assert 0 <= x < 0x8000_0000 ==> u == x by {
      if 0 <= x < 0x8000_0000 {
        LowWord(x);
        XorZero(x);
      }
    }
    if u < 0x8000_0000 then u else u - Two32
  }

  /** A number below 2^31 is its own low word, and its high word is zero. */
  lemma LowWord(x: int)
    requires 0 <= x < 0x8000_0000
    ensures x % Two64 == x && (x % Two64) % Two32 == x && (x % Two64) / Two32 == 0
  {
  }

  /** The World an entity belongs to; only its identity matters here. */
  datatype WorldRef = WorldRef(id: nat)

  /** src/Entity.cs: a reference type with a fixed id and a mutable World. */
  class Entity {
    const id: int
    var world: Option<WorldRef>

    /** new Entity(world, id). */
    constructor (world: Option<WorldRef>, id: int)
      ensures this.id == id && this.world == world
    {
      this.id := id;
      this.world := world;
    }

    /** The initialiser of Entity.Null: `new Entity(null, 0)`. */
    constructor Null()
      ensures id == NullId && world == None
      ensures IsDestroyed()
    {
      id := NullId;
      world := None;
    }

    /** IsDestroyed => World == null. */
    function IsDestroyed(): (r: bool)
      reads this
      ensures r <==> world == None
    {
      world.None?
    }

    /** Equals(Entity other): false for null, true for the same object, else by id; the
        shortcut for the same object agrees with comparing ids. */
    function Equals(other: Entity?): (r: bool)
      ensures r <==> other != null && other.id == id
    {
      other != null && (other == this || id == other.id)
    }

    /** GetHashCode() => ID.GetHashCode(): a 32-bit int, the id itself for small ids. */
    function GetHashCode(): (h: int)
      ensures -0x8000_0000 <= h < 0x8000_0000
      ensures 0 <= id < 0x8000_0000 ==> h == id
    {
      Int64Hash(id)
    }
  }

  /** What Entity.Equals(object) may be handed: `obj as Entity` is null for anything else. */
  datatype BoxedObject = EntityObject(entity: Entity?) | NonEntityObject(tag: nat)

  /** Equals(object obj) => Equals(obj as Entity). */
  function EntityEqualsObject(self: Entity, obj: BoxedObject): (r: bool)
    ensures r <==> obj.EntityObject? && obj.entity != null && obj.entity.id == self.id
  {
    match obj
    case EntityObject(e) => self.Equals(e)
    case NonEntityObject(_) => self.Equals(null)
  }

  /** operator == on Entity: reference equality first (so null == null), then null checks,
      then Equals. */
  function EntityOpEqual(one: Entity?, two: Entity?): (r: bool)
    ensures r <==> (one == null && two == null) || (one != null && two != null && one.id == two.id)
  {
    if one == two then true
    else if one == null || two == null then false
    else one.Equals(two)
  }

  /** operator != on Entity. */
  function EntityOpNotEqual(one: Entity?, two: Entity?): (r: bool)
    ensures r <==> (one == null) != (two == null) || (one != null && two != null && one.id != two.id)
  {
    !EntityOpEqual(one, two)
  }

  /** Entity equality, in all its forms, is equality of ids (with null equal only to null). */
  lemma EntityEqualityIsIdEquality(one: Entity?, two: Entity?)
    ensures EntityOpEqual(one, two) <==> (one == null && two == null) || (one != null && two != null && one.id == two.id)
    ensures EntityOpNotEqual(one, two) <==> !EntityOpEqual(one, two)
    ensures one != null ==> (one.Equals(two) <==> two != null && one.id == two.id)
    ensures one != null ==> (EntityEqualsObject(one, EntityObject(two)) <==> one.Equals(two))
    ensures one != null ==> forall tag: nat :: !EntityEqualsObject(one, NonEntityObject(tag))
  {
  }

  /** Equal entities have equal hash codes, so a dictionary keyed by Entity is keyed by id. */
  lemma EqualEntitiesHashAlike(one: Entity, two: Entity)
    requires one.Equals(two)
    ensures one.GetHashCode() == two.GetHashCode()
  {
  }
}
