/**
 * The identity part shared by every persistent model object (AbstractObject):
 * an id, audit fields, and equality by exact runtime class plus id.
 *
 * Java subclassing is modelled by a constant `runtimeClass` field: a Flow's
 * identity part is an AbstractObject whose runtime class is FlowClass.
 */
module Identity {
  import opened Common

  /** The exact runtime class of an object, as getClass() reports it. Flow is
      the only subclass whose behaviour differs here; the others are by name. */
  datatype ClassName = FlowClass | OtherClass(name: string)

  class AbstractObject {
    const runtimeClass: ClassName
    var id: string
    /** Storage behind the subclass's getName/setName. */
    var name: Option<string>
    /** Dates are milliseconds since the epoch. */
    var createTime: int
    var createBy: Option<string>
    var lastUpdateTime: int
    var lastUpdateBy: Option<string>

    /** A new object. The generated UUID and the current time are parameters. */
    constructor (runtimeClass: ClassName, generatedId: string, now: int)
      ensures this.runtimeClass == runtimeClass && id == generatedId && name == None
      ensures createTime == now && lastUpdateTime == now
      ensures createBy == None && lastUpdateBy == None
    {
      this.runtimeClass := runtimeClass;
      id := generatedId;
      name := None;
      createTime := now;
      createBy := None;
      lastUpdateTime := now;
      lastUpdateBy := None;
    }

    function GetId(): string
      reads this
    {
      id
    }

    method SetId(newId: string)
      modifies this`id
      ensures GetId() == newId
    {
      id := newId;
    }

    method SetName(newName: Option<string>)
      modifies this`name
      ensures ToString() == newName
    {
      name := newName;
    }

    method SetCreateTime(t: int)
      modifies this`createTime
      ensures createTime == t
    {
      createTime := t;
    }

    method SetCreateBy(who: Option<string>)
      modifies this`createBy
      ensures createBy == who
    {
      createBy := who;
    }

    method SetLastUpdateTime(t: int)
      modifies this`lastUpdateTime
      ensures lastUpdateTime == t
    {
      lastUpdateTime := t;
    }

    method SetLastUpdateBy(who: Option<string>)
      modifies this`lastUpdateBy
      ensures lastUpdateBy == who
    {
      lastUpdateBy := who;
    }

    /** Whether the editor may rename the object: false by default, and the
        Flow subclass overrides it to true. */
    function IsSettingNameAllowed(): (allowed: bool)
      ensures allowed <==> runtimeClass == FlowClass
    {
      match runtimeClass
      case FlowClass => true
      case OtherClass(_) => false
    }

    /** equals: for an object of exactly the same runtime class, the ids are
        compared; anything else falls back to Object.equals, reference identity. */
    predicate Equals(obj: object?)
      reads this, obj
    {
      if obj is AbstractObject && (obj as AbstractObject).runtimeClass == runtimeClass
      then id == (obj as AbstractObject).id
      else obj == this
    }

    /** hashCode: the hash of the id string. */
    function HashCode(): (h: int)
      reads this
      ensures -TwoTo31 <= h < TwoTo31
    {
      JavaStringHash(id)
    }

    /** toString: the name. */
    function ToString(): Option<string>
      reads this
    {
      name
    }
  }

  /** Two objects of the same runtime class are equal exactly when their ids are. */
  lemma EqualsSameClass(a: AbstractObject, b: AbstractObject)
    requires a.runtimeClass == b.runtimeClass
    ensures a.Equals(b) <==> a.id == b.id
  {
  }

  /** Objects of different runtime classes are equal only if they are the same
      reference, which they cannot be: so they are never equal, even with the same id. */
  lemma EqualsOtherClass(a: AbstractObject, b: AbstractObject)
    requires a.runtimeClass != b.runtimeClass
    ensures !a.Equals(b)
  {
  }

  /** An argument that is null or not an AbstractObject at all is compared by
      reference, so it is never equal. */
  lemma EqualsNonModelObject(a: AbstractObject, obj: object?)
    requires !(obj is AbstractObject)
    ensures !a.Equals(obj)
  {
  }

  /** equals is an equivalence on model objects. */
  lemma EqualsIsEquivalence(a: AbstractObject, b: AbstractObject, c: AbstractObject)
    ensures a.Equals(a)
    ensures a.Equals(b) <==> b.Equals(a)
    ensures a.Equals(b) && b.Equals(c) ==> a.Equals(c)
  {
  }

  /** hashCode is consistent with equals. */
  lemma EqualObjectsHaveEqualHashes(a: AbstractObject, b: AbstractObject)
    requires a.Equals(b)
    ensures a.HashCode() == b.HashCode()
  {
  }
}
