/**
 * `Setter`: a style's assignment of a value to a property. Instancing a
 * setter for a target either yields the setter itself (a constant, shared by
 * every target) or a fresh per-target binding instance.
 */
module Setters {
  import opened Base

  /** What a setter assigns: a constant, or an `IBinding` to instance. */
  datatype SetterValue = Constant(v: Value) | Bound(binding: BindingId)

  datatype Setter = Setter(property: Option<PropId>, value: SetterValue)

  /** What `Instance` returns: the setter itself, or a new
      `SetterBindingInstance` for the property and binding. */
  datatype SetterInstance = Itself | NewBinding(prop: PropId, binding: BindingId)

  /** `IsValidValue` is a type-conversion test; it is a parameter here. */
  type Convertible = (PropId, Value) -> bool

  /** `Instance`: a setter without a property is an error; a binding value
      gives a new binding instance; a constant is checked for validity and
      then the setter itself is the entry. */
  function Instance(s: Setter, convertible: Convertible): (r: Result<SetterInstance>)
    ensures s.property.None? ==> r == Fail(SetterPropertyUnset)
    ensures s.property.Some? && s.value.Bound? ==>
      r == Ok(NewBinding(s.property.value, s.value.binding))
    ensures s.property.Some? && s.value.Constant? ==>
      (r == Ok(Itself) <==> convertible(s.property.value, s.value.v)) &&
      (r != Ok(Itself) ==> r == Fail(InvalidSetterValue))
    ensures r.Ok? && r.value.Itself? <==> IsConstant(s, convertible)
  {
    match s.property
    case None => Fail(SetterPropertyUnset)
    case Some(p) =>
      match s.value
      case Bound(b) => Ok(NewBinding(p, b))
      case Constant(v) => if convertible(p, v) then Ok(Itself) else Fail(InvalidSetterValue)
  }

  /** A setter that instances as itself: a valid constant on a set property. */
  predicate IsConstant(s: Setter, convertible: Convertible) {
    s.property.Some? && s.value.Constant? && convertible(s.property.value, s.value.v)
  }

  /** A constant setter as an entry: it always has a value, its `Value`. */
  function TryGetValue(s: Setter): (r: (bool, Value))
    requires s.value.Constant?
    ensures r.0 && r.1 == s.value.v
  {
    (true, s.value.v)
  }
}
